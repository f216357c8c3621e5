/** The small string operations the scripts use on folder names, option
    strings and file names: `str.split`, `str.strip`, `str.lower`,
    `str.upper`, `str.replace`, `startswith` and `endswith`.  Case mapping is
    modelled on ASCII letters only. */
module Text {

  predicate IsUpperAscii(c: char) { 'A' <= c <= 'Z' }

  predicate IsLowerAscii(c: char) { 'a' <= c <= 'z' }

  /** The characters below 128 that Python's `str.isspace` accepts. */
  predicate IsSpace(c: char) {
    c == ' ' || ('\t' <= c <= '\r') || (28 <= c as int <= 31)
  }

  function LowerChar(c: char): (r: char)
    ensures !IsUpperAscii(r)
    ensures IsUpperAscii(c) ==> IsLowerAscii(r) && r as int == c as int + 32
    ensures !IsUpperAscii(c) ==> r == c
  {
    if IsUpperAscii(c) then (c as int + 32) as char else c
  }

  function UpperChar(c: char): (r: char)
    ensures !IsLowerAscii(r)
    ensures IsLowerAscii(c) ==> IsUpperAscii(r) && r as int == c as int - 32
    ensures !IsLowerAscii(c) ==> r == c
  {
    if IsLowerAscii(c) then (c as int - 32) as char else c
  }

  /** `s.lower()` */
  function Lower(s: string): (r: string)
    ensures |r| == |s|
    ensures forall i :: 0 <= i < |s| ==> r[i] == LowerChar(s[i])
  {
    seq(|s|, i requires 0 <= i < |s| => LowerChar(s[i]))
  }

  /** `s.upper()` */
  function Upper(s: string): (r: string)
    ensures |r| == |s|
    ensures forall i :: 0 <= i < |s| ==> r[i] == UpperChar(s[i])
  {
    seq(|s|, i requires 0 <= i < |s| => UpperChar(s[i]))
  }

  lemma LowerIdempotent(s: string)
    ensures Lower(Lower(s)) == Lower(s)
  {
  }

  /** Text without upper-case letters is its own lower-case form. */
  lemma LowerWithoutUpper(s: string)
    requires forall i :: 0 <= i < |s| ==> !IsUpperAscii(s[i])
    ensures Lower(s) == s
  {
  }

  /** `s.replace(a, b)` for single characters. */
  function ReplaceChar(s: string, a: char, b: char): (r: string)
    ensures |r| == |s|
    ensures a != b ==> a !in r
    ensures forall i :: 0 <= i < |s| && s[i] != a ==> r[i] == s[i]
  {
    seq(|s|, i requires 0 <= i < |s| => if s[i] == a then b else s[i])
  }

  predicate StartsWith(s: string, p: string) {
    |p| <= |s| && s[..|p|] == p
  }

  predicate EndsWith(s: string, p: string) {
    |p| <= |s| && s[|s| - |p|..] == p
  }

  /** `sep.join(parts)` */
  function Join(parts: seq<string>, sep: char): string
    requires |parts| > 0
  {
    if |parts| == 1 then parts[0] else parts[0] + [sep] + Join(parts[1..], sep)
  }

  /** `s.split(sep)` with an explicit one-character separator: a string with
      m separators splits into m + 1 pieces, empty pieces included. */
  function Split(s: string, sep: char): (r: seq<string>)
    ensures |r| > 0
    ensures forall i :: 0 <= i < |r| ==> sep !in r[i]
    ensures Join(r, sep) == s
  {
    if s == [] then [[]]
    else
      var rest := Split(s[1..], sep);
      if s[0] == sep then [[]] + rest
      else
        assert ([s[0]] + rest[0]) + Join(rest, sep)[|rest[0]|..] == s;
        [[s[0]] + rest[0]] + rest[1..]
  }

  /** Splitting undoes joining: the two are inverse on separator-free pieces. */
  lemma {:induction false} SplitJoin(parts: seq<string>, sep: char)
    requires |parts| > 0
    requires forall i :: 0 <= i < |parts| ==> sep !in parts[i]
    ensures Split(Join(parts, sep), sep) == parts
  {
    if |parts| == 1 {
      SplitNoSep(parts[0], sep);
    } else {
      SplitJoin(parts[1..], sep);
      SplitPrefix(parts[0], Join(parts[1..], sep), sep);
    }
  }

  lemma {:induction false} SplitNoSep(s: string, sep: char)
    requires sep !in s
    ensures Split(s, sep) == [s]
  {
    if s != [] {
      SplitNoSep(s[1..], sep);
    }
  }

  lemma {:induction false} SplitPrefix(p: string, t: string, sep: char)
    requires sep !in p
    ensures Split(p + [sep] + t, sep) == [p] + Split(t, sep)
  {
    if p == [] {
      assert p + [sep] + t == [sep] + t;
      assert ([sep] + t)[1..] == t;
    } else {
      assert (p + [sep] + t)[1..] == p[1..] + [sep] + t;
      SplitPrefix(p[1..], t, sep);
      assert [p[0]] + p[1..] == p;
    }
  }

  /** A character missing from the text is missing from every piece. */
  lemma {:induction false} SplitAvoids(s: string, sep: char, c: char)
    requires c !in s
    ensures forall k :: 0 <= k < |Split(s, sep)| ==> c !in Split(s, sep)[k]
  {
    if s != [] {
      SplitAvoids(s[1..], sep, c);
    }
  }

  /** `s.split(sep)[0]`: the text before the first separator. */
  function FirstToken(s: string, sep: char): (r: string)
    ensures sep !in r
    ensures StartsWith(s, r)
    ensures |r| < |s| ==> s[|r|] == sep
    ensures sep !in s ==> r == s
  {
    var parts := Split(s, sep);
    JoinHead(parts, sep);
    if sep !in s then SplitNoSep(s, sep); parts[0] else parts[0]
  }

  /** The first token ends at the first separator. */
  lemma FirstTokenAt(s: string, sep: char, k: nat)
    requires k < |s| && s[k] == sep
    requires forall i :: 0 <= i < k ==> s[i] != sep
    ensures FirstToken(s, sep) == s[..k]
  {
    var r := FirstToken(s, sep);
    assert r == s[..|r|];
    if |r| > k {
      assert false;
    }
  }

  lemma {:induction false} JoinHead(parts: seq<string>, sep: char)
    requires |parts| > 0
    ensures StartsWith(Join(parts, sep), parts[0])
    ensures |parts| > 1 ==> |parts[0]| < |Join(parts, sep)| && Join(parts, sep)[|parts[0]|] == sep
  {
  }

  /** `s.lstrip()` */
  function StripLeft(s: string): (r: string)
    ensures |r| <= |s| && r == s[|s| - |r|..]
    ensures forall i :: 0 <= i < |s| - |r| ==> IsSpace(s[i])
    ensures r != [] ==> !IsSpace(r[0])
  {
    if s != [] && IsSpace(s[0]) then StripLeft(s[1..]) else s
  }

  /** `s.rstrip()` */
  function StripRight(s: string): (r: string)
    ensures |r| <= |s| && r == s[..|r|]
    ensures forall i :: |r| <= i < |s| ==> IsSpace(s[i])
    ensures r != [] ==> !IsSpace(r[|r| - 1])
  {
    if s != [] && IsSpace(s[|s| - 1]) then StripRight(s[..|s| - 1]) else s
  }

  /** A token that neither begins nor ends with whitespace. */
  predicate Trimmed(t: string) {
    t != [] ==> !IsSpace(t[0]) && !IsSpace(t[|t| - 1])
  }

  /** `r` is `s` with whitespace, and only whitespace, removed on both sides. */
  ghost predicate IsStripOf(r: string, s: string) {
    exists i, j :: 0 <= i <= j <= |s| && r == s[i..j]
                   && (forall k :: 0 <= k < i ==> IsSpace(s[k]))
                   && (forall k :: j <= k < |s| ==> IsSpace(s[k]))
  }

  /** `s.strip()` */
  function Strip(s: string): (r: string)
    ensures IsStripOf(r, s) && Trimmed(r)
    ensures (forall k :: 0 <= k < |s| ==> IsSpace(s[k])) <==> r == []
    ensures forall c :: c in r ==> c in s
  {
    var l := StripLeft(s);
    var r := StripRight(l);
    StripBothSides(s, l, r);
    r
  }

  /** Stripping the left side and then the right side strips both. */
  lemma StripBothSides(s: string, l: string, r: string)
    requires |l| <= |s| && l == s[|s| - |l|..]
    requires forall i :: 0 <= i < |s| - |l| ==> IsSpace(s[i])
    requires |r| <= |l| && r == l[..|r|]
    requires forall i :: |r| <= i < |l| ==> IsSpace(l[i])
    ensures IsStripOf(r, s)
  {
    var i := |s| - |l|;
    assert r == s[i..i + |r|];
    forall k | i + |r| <= k < |s| ensures IsSpace(s[k]) {
      assert s[k] == l[k - i];
    }
  }

  /** `[t.strip() for t in pieces if t.strip()]` */
  function StrippedTokens(pieces: seq<string>): (r: seq<string>)
    ensures |r| <= |pieces|
    ensures forall i :: 0 <= i < |r| ==> r[i] != [] && Trimmed(r[i])
    ensures forall t :: t in r <==> t != [] && t in Strips(pieces)
  {
    if pieces == [] then []
    else
      var xs := Strips(pieces);
      var rest := StrippedTokens(pieces[1..]);
      var r := TokenOf(Strip(pieces[0])) + rest;
      assert xs[1..] == Strips(pieces[1..]);
      NonEmptyCons(xs, rest, r);
      TrimmedCons(xs[0], rest, r);
      r
  }

  /** The token a stripped piece contributes: itself, unless it is empty. */
  function TokenOf(t: string): (r: seq<string>)
    ensures |r| <= 1
  {
    if t == [] then [] else [t]
  }

  /** Each piece stripped, in order. */
  function Strips(pieces: seq<string>): (r: seq<string>)
    ensures |r| == |pieces|
    ensures forall i :: 0 <= i < |pieces| ==> r[i] == Strip(pieces[i])
  {
    seq(|pieces|, i requires 0 <= i < |pieces| => Strip(pieces[i]))
  }

  /** Keeping the non-empty element in front keeps exactly the non-empty
      elements. */
  lemma NonEmptyCons(xs: seq<string>, rest: seq<string>, r: seq<string>)
    requires xs != []
    requires forall t :: t in rest <==> t != [] && t in xs[1..]
    requires r == TokenOf(xs[0]) + rest
    ensures forall t :: t in r <==> t != [] && t in xs
  {
    assert xs == [xs[0]] + xs[1..];
  }

  /** The tokens of consecutive pieces are the tokens of the first pieces
      followed by those of the rest: the order of the pieces is kept. */
  lemma {:induction false} StrippedTokensAppend(a: seq<string>, b: seq<string>)
    ensures StrippedTokens(a + b) == StrippedTokens(a) + StrippedTokens(b)
  {
    if a != [] {
      var ab := a + b;
      assert ab[0] == a[0] && ab[1..] == a[1..] + b;
      var head := TokenOf(Strip(a[0]));
      assert StrippedTokens(ab) == head + StrippedTokens(a[1..] + b);
      StrippedTokensAppend(a[1..], b);
      Associative(head, StrippedTokens(a[1..]), StrippedTokens(b));
    } else {
      assert a + b == b;
    }
  }

  lemma Associative<T>(a: seq<T>, b: seq<T>, c: seq<T>)
    ensures a + (b + c) == (a + b) + c
  {
  }

  /** Prepending a trimmed token, unless it is empty, to non-empty trimmed
      tokens. */
  lemma TrimmedCons(t: string, rest: seq<string>, r: seq<string>)
    requires Trimmed(t)
    requires forall i :: 0 <= i < |rest| ==> rest[i] != [] && Trimmed(rest[i])
    requires r == TokenOf(t) + rest
    ensures forall i :: 0 <= i < |r| ==> r[i] != [] && Trimmed(r[i])
  {
    forall i | 0 <= i < |r| ensures r[i] != [] && Trimmed(r[i]) {
      if t != [] && i > 0 {
        assert r[i] == rest[i - 1];
      }
    }
  }

  /** A character missing from every piece is missing from every token. */
  lemma {:induction false} StrippedTokensAvoid(pieces: seq<string>, c: char)
    requires forall j :: 0 <= j < |pieces| ==> c !in pieces[j]
    ensures forall t :: t in StrippedTokens(pieces) ==> c !in t
  {
    if pieces != [] {
      var t := Strip(pieces[0]);
      var rest := StrippedTokens(pieces[1..]);
      StrippedTokensAvoid(pieces[1..], c);
      assert c !in t;
    }
  }

  /** Stripping a token that is already trimmed changes nothing. */
  lemma StripTrimmed(t: string)
    requires Trimmed(t)
    ensures Strip(t) == t
  {
    if t != [] {
      assert StripLeft(t) == t;
      assert StripRight(t) == t;
    } else {
      assert StripLeft(t) == t;
    }
  }

  lemma {:induction false} StrippedTokensOfTrimmed(pieces: seq<string>)
    requires forall k :: 0 <= k < |pieces| ==> pieces[k] != [] && Trimmed(pieces[k])
    ensures StrippedTokens(pieces) == pieces
  {
    if pieces != [] {
      StripTrimmed(pieces[0]);
      StrippedTokensOfTrimmed(pieces[1..]);
      assert pieces == [pieces[0]] + pieces[1..];
    }
  }
}
