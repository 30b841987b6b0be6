/** The string operations the content script relies on, with the semantics of
    the ECMAScript built-ins it calls: String.prototype.trim,
    Array.prototype.join and String.prototype.split with a one-character
    separator, and the text normaliser built from them. */
module Strings {

  /** The characters String.prototype.trim removes: the ECMAScript WhiteSpace
      and LineTerminator code points. */
  predicate IsSpace(c: char) {
    c == '\t' || c == '\n' || c == '\U{B}' || c == '\U{C}' || c == '\r' || c == ' '
    || c == '\U{A0}' || c == '\U{1680}' || ('\U{2000}' <= c <= '\U{200A}')
    || c == '\U{2028}' || c == '\U{2029}' || c == '\U{202F}' || c == '\U{205F}'
    || c == '\U{3000}' || c == '\U{FEFF}'
  }

  /** Every character is whitespace (this includes the empty string). */
  predicate Blank(s: string) {
    forall i :: 0 <= i < |s| ==> IsSpace(s[i])
  }

  /** Neither end of the string is whitespace. */
  predicate Tight(s: string) {
    s == [] || (!IsSpace(s[0]) && !IsSpace(s[|s| - 1]))
  }

  /** Drops the leading whitespace: the result does not start with
      whitespace. */
  function TrimStart(s: string): (r: string)
    ensures r == [] || !IsSpace(r[0])
  {
    if |s| > 0 && IsSpace(s[0]) then TrimStart(s[1..]) else s
  }

  /** What TrimStart drops is a blank prefix, so the result is the longest
      suffix not starting with whitespace. */
  lemma {:induction false} TrimStartSuffix(s: string)
    ensures var r := TrimStart(s);
            |r| <= |s| && r == s[|s| - |r|..] && Blank(s[..|s| - |r|])
  {
    if |s| > 0 && IsSpace(s[0]) {
      TrimStartSuffix(s[1..]);
      var r := TrimStart(s[1..]);
      assert s[..|s| - |r|] == [s[0]] + s[1..][..|s| - 1 - |r|];
    }
  }

  /** Drops the trailing whitespace: the result does not end with
      whitespace. */
  function TrimEnd(s: string): (r: string)
    ensures r == [] || !IsSpace(r[|r| - 1])
  {
    if |s| > 0 && IsSpace(s[|s| - 1]) then TrimEnd(s[..|s| - 1]) else s
  }

  /** What TrimEnd drops is a blank suffix, so the result is the longest
      prefix not ending with whitespace. */
  lemma {:induction false} TrimEndPrefix(s: string)
    ensures var r := TrimEnd(s);
            |r| <= |s| && r == s[..|r|] && Blank(s[|r|..])
  {
    if |s| > 0 && IsSpace(s[|s| - 1]) {
      TrimEndPrefix(s[..|s| - 1]);
      var r := TrimEnd(s[..|s| - 1]);
      assert s[|r|..] == s[..|s| - 1][|r|..] + [s[|s| - 1]];
    }
  }

  /** String.prototype.trim: whitespace removed from both ends. */
  function Trim(s: string): string {
    TrimEnd(TrimStart(s))
  }

  /** A trimmed string has whitespace at neither end. */
  lemma TrimIsTight(s: string)
    ensures Tight(Trim(s))
  {
    var t := TrimStart(s);
    TrimEndPrefix(t);
    var r := TrimEnd(t);
    assert r != [] ==> t[0] == r[0];
  }

  /** Trim leaves the infix of `s` framed by whitespace on both sides, and it
      is empty exactly when `s` is blank. */
  lemma TrimInfix(s: string)
    ensures var r := Trim(s);
            exists i :: 0 <= i && i + |r| <= |s| && s[i..i + |r|] == r
                        && Blank(s[..i]) && Blank(s[i + |r|..])
    ensures Trim(s) == [] <==> Blank(s)
  {
    var t := TrimStart(s);
    var r := TrimEnd(t);
    TrimStartSuffix(s);
    TrimEndPrefix(t);
    TrimParts(s, t, r);
    var i := |s| - |t|;
    assert s[i..i + |r|] == r && Blank(s[..i]) && Blank(s[i + |r|..]);
    if r != [] {
      assert s[i] == r[0];
    }
  }

  /** A suffix after leading blanks, cut before trailing blanks, is an infix
      of the original framed by whitespace. */
  lemma TrimParts(s: string, t: string, r: string)
    requires |t| <= |s| && t == s[|s| - |t|..] && Blank(s[..|s| - |t|])
    requires |r| <= |t| && r == t[..|r|] && Blank(t[|r|..])
    ensures var i := |s| - |t|;
            s[i..i + |r|] == r && Blank(s[i + |r|..])
    ensures r == [] ==> Blank(s)
  {
    var i := |s| - |t|;
    assert s[i + |r|..] == t[|r|..];
    if r == [] {
      forall k | 0 <= k < |s| ensures IsSpace(s[k]) {
        if k < i { assert s[k] == s[..i][k]; } else { assert s[k] == t[k - i]; }
      }
    }
  }

  /** A string with no whitespace at either end is its own trim. */
  lemma TrimOfTight(s: string)
    requires Tight(s)
    ensures Trim(s) == s
  {
  }

  /** Array.prototype.join: the parts with `sep` between consecutive ones. */
  function Join(parts: seq<string>, sep: string): string {
    if |parts| == 0 then ""
    else if |parts| == 1 then parts[0]
    else parts[0] + sep + Join(parts[1..], sep)
  }

  /** A join with a blank separator is blank exactly when every part is. */
  lemma {:induction false} JoinBlank(parts: seq<string>, sep: string)
    requires Blank(sep)
    ensures Blank(Join(parts, sep)) <==> forall k :: 0 <= k < |parts| ==> Blank(parts[k])
  {
    if |parts| > 1 {
      JoinBlank(parts[1..], sep);
      var tail := Join(parts[1..], sep);
      var whole := parts[0] + sep + tail;
      if Blank(whole) {
        forall k | 0 <= k < |parts| ensures Blank(parts[k]) {
          if k == 0 {
            assert forall j :: 0 <= j < |parts[0]| ==> whole[j] == parts[0][j];
          } else {
            assert forall j :: 0 <= j < |tail| ==> whole[|parts[0]| + |sep| + j] == tail[j];
            assert parts[k] == parts[1..][k - 1];
          }
        }
      }
      if forall k :: 0 <= k < |parts| ==> Blank(parts[k]) {
        assert forall k :: 0 <= k < |parts| - 1 ==> parts[1..][k] == parts[k + 1];
        assert Blank(tail);
      }
    }
  }

  /** String.prototype.split with a one-character separator: the pieces between
      the separators, none containing it; the first piece is the longest prefix
      free of the separator. */
  function Split(s: string, sep: char): (r: seq<string>)
    ensures |r| >= 1
    ensures forall k :: 0 <= k < |r| ==> sep !in r[k]
    ensures |r[0]| <= |s| && r[0] == s[..|r[0]|]
    ensures |r[0]| < |s| ==> s[|r[0]|] == sep
  {
    if s == [] then [""]
    else
      var rest := Split(s[1..], sep);
      if s[0] == sep then [""] + rest
      else [[s[0]] + rest[0]] + rest[1..]
  }

  /** Joining the pieces of a split with the separator gives back the string. */
  lemma {:induction false} SplitJoin(s: string, sep: char)
    ensures Join(Split(s, sep), [sep]) == s
  {
    if s != [] {
      var rest := Split(s[1..], sep);
      SplitJoin(s[1..], sep);
      if s[0] == sep {
        JoinCons("", rest, [sep]);
      } else if |rest| == 1 {
        assert Split(s, sep) == [[s[0]] + rest[0]];
      } else {
        var tail := rest[1..];
        assert Split(s, sep) == [[s[0]] + rest[0]] + tail;
        assert rest == [rest[0]] + tail;
        JoinCons([s[0]] + rest[0], tail, [sep]);
        JoinCons(rest[0], tail, [sep]);
        assert ([s[0]] + rest[0]) + [sep] + Join(tail, [sep])
               == [s[0]] + (rest[0] + [sep] + Join(tail, [sep]));
      }
    }
  }

  /** Joining a part in front of at least one more puts the separator
      between them. */
  lemma JoinCons(part: string, parts: seq<string>, sep: string)
    requires |parts| >= 1
    ensures Join([part] + parts, sep) == part + sep + Join(parts, sep)
  {
    assert ([part] + parts)[1..] == parts;
  }

  /** Each piece trimmed, as `.map((span) => span.textContent.trim())` does. */
  function TrimAll(pieces: seq<string>): seq<string>
  {
    seq(|pieces|, k requires 0 <= k < |pieces| => Trim(pieces[k]))
  }

  /** The tweet text: the pieces trimmed, joined with single spaces, trimmed
      again. */
  function Normalize(pieces: seq<string>): string {
    Trim(Join(TrimAll(pieces), " "))
  }

  /** The tweet text never has whitespace at either end. */
  lemma NormalizeIsTight(pieces: seq<string>)
    ensures Tight(Normalize(pieces))
  {
    TrimIsTight(Join(TrimAll(pieces), " "));
  }

  /** The tweet text is empty exactly when every piece is blank. */
  lemma NormalizeEmpty(pieces: seq<string>)
    ensures Normalize(pieces) == [] <==> forall k :: 0 <= k < |pieces| ==> Blank(pieces[k])
  {
    var trimmed := TrimAll(pieces);
    JoinBlank(trimmed, " ");
    TrimInfix(Join(trimmed, " "));
    forall k | 0 <= k < |pieces| ensures Blank(trimmed[k]) <==> Blank(pieces[k]) {
      TrimInfix(pieces[k]);
    }
  }

  /** A single piece without outer whitespace, in particular an already
      normalised text, normalises to itself. */
  lemma NormalizeFixpoint(n: string)
    requires Tight(n)
    ensures Normalize([n]) == n
  {
    TrimOfTight(n);
    var trimmed := TrimAll([n]);
    assert trimmed == [n];
    assert Join(trimmed, " ") == n;
  }
}
