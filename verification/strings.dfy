/** The string operations the Java code relies on: `String.contains`,
    `String.split(regex)` for a literal separator (with Java's rule that
    trailing empty strings are removed and that a string without any match
    splits into itself), and the decimal rendering of an `int` used when
    concatenating it to a string. */
module Strings {
  import opened Wrappers

  /** `sep` occurs in `s` starting at index `i`. */
  predicate OccursAt(s: string, sep: string, i: int)
  {
    0 <= i && i + |sep| <= |s| && s[i..i + |sep|] == sep
  }

  /** Java `s.contains(sub)`. */
  predicate Contains(s: string, sub: string)
  {
    exists i | 0 <= i <= |s| - |sub| :: OccursAt(s, sub, i)
  }

  /** Java `s.indexOf(sep, i)` for a non-empty separator, as an Option. */
  function IndexFrom(s: string, sep: string, i: nat): (r: Option<nat>)
    requires |sep| > 0
    ensures r.Some? ==> i <= r.value && OccursAt(s, sep, r.value)
    ensures r.Some? ==> forall j :: i <= j < r.value ==> !OccursAt(s, sep, j)
    ensures r.None? ==> forall j :: i <= j ==> !OccursAt(s, sep, j)
    decreases |s| - i
  {
    if i + |sep| > |s| then None
    else if OccursAt(s, sep, i) then Some(i)
    else IndexFrom(s, sep, i + 1)
  }

  /** The pieces between the non-overlapping, leftmost-first occurrences of
      `sep`, empty pieces included. */
  function Pieces(s: string, sep: string): (r: seq<string>)
    requires |sep| > 0
    ensures |r| > 0
    decreases |s|
  {
    match IndexFrom(s, sep, 0)
    case None => [s]
    case Some(i) => [s[..i]] + Pieces(s[i + |sep|..], sep)
  }

  /** Removes the empty strings at the end of a piece list. */
  function DropTrailingEmpty(ps: seq<string>): (r: seq<string>)
    ensures |r| <= |ps| && r == ps[..|r|]
    ensures forall i :: |r| <= i < |ps| ==> ps[i] == ""
    ensures |r| > 0 ==> r[|r| - 1] != ""
    ensures |ps| > 0 && ps[|ps| - 1] != "" ==> r == ps
  {
    if |ps| > 0 && ps[|ps| - 1] == "" then DropTrailingEmpty(ps[..|ps| - 1]) else ps
  }

  /** Java `s.split(sep)` for a separator without regular-expression
      meta-characters: no match yields `[s]` (even for the empty string);
      otherwise trailing empty pieces are dropped, which may leave nothing. */
  function JavaSplit(s: string, sep: string): seq<string>
    requires |sep| > 0
  {
    if IndexFrom(s, sep, 0).None? then [s] else DropTrailingEmpty(Pieces(s, sep))
  }

  /** Java `s.split(sep)[0]`; `None` where Java throws
      ArrayIndexOutOfBoundsException on an empty array. */
  function SplitFirst(s: string, sep: string): Option<string>
    requires |sep| > 0
  {
    var a := JavaSplit(s, sep);
    if |a| == 0 then None else Some(a[0])
  }

  /** Java `s.split(sep)[s.split(sep).length - 1]`; `None` where Java
      throws on index -1. */
  function SplitLast(s: string, sep: string): Option<string>
    requires |sep| > 0
  {
    var a := JavaSplit(s, sep);
    if |a| == 0 then None else Some(a[|a| - 1])
  }

  lemma OccursInPrefix(s: string, sep: string, k: nat, j: int)
    requires k <= |s| && OccursAt(s[..k], sep, j)
    ensures OccursAt(s, sep, j)
  {
    assert s[..k][j..j + |sep|] == s[j..j + |sep|];
  }

  lemma OccursInSuffix(s: string, sep: string, d: nat, j: int)
    requires d <= |s| && OccursAt(s[d..], sep, j)
    ensures OccursAt(s, sep, j + d)
  {
    assert s[d..][j..j + |sep|] == s[j + d..j + d + |sep|];
  }

  /** No piece contains the separator. */
  lemma {:induction false} PiecesAreSeparatorFree(s: string, sep: string)
    requires |sep| > 0
    ensures forall k, j :: 0 <= k < |Pieces(s, sep)| ==> !OccursAt(Pieces(s, sep)[k], sep, j)
    decreases |s|
  {
    match IndexFrom(s, sep, 0)
    case None =>
    case Some(i) =>
      var rest := s[i + |sep|..];
      PiecesAreSeparatorFree(rest, sep);
      forall j | OccursAt(s[..i], sep, j)
        ensures false
      {
        OccursInPrefix(s, sep, i, j);
      }
  }

  /** The first piece is the text before the first occurrence. */
  lemma FirstPiece(s: string, sep: string)
    requires |sep| > 0
    ensures IndexFrom(s, sep, 0).None? ==> Pieces(s, sep)[0] == s
    ensures IndexFrom(s, sep, 0).Some? ==> Pieces(s, sep)[0] == s[..IndexFrom(s, sep, 0).value]
  {
  }

  /** Where the last piece starts: 0, or just after an occurrence. */
  function LastPieceStart(s: string, sep: string): (k: nat)
    requires |sep| > 0
    ensures k <= |s|
    decreases |s|
  {
    match IndexFrom(s, sep, 0)
    case None => 0
    case Some(i) => i + |sep| + LastPieceStart(s[i + |sep|..], sep)
  }

  /** The last piece is the suffix of `s` from `LastPieceStart`, which
      follows an occurrence of the separator whenever there is one. */
  lemma {:induction false} LastPiece(s: string, sep: string)
    requires |sep| > 0
    ensures var ps := Pieces(s, sep); ps[|ps| - 1] == s[LastPieceStart(s, sep)..]
    ensures IndexFrom(s, sep, 0).Some? ==>
      |sep| <= LastPieceStart(s, sep) && OccursAt(s, sep, LastPieceStart(s, sep) - |sep|)
    decreases |s|
  {
    match IndexFrom(s, sep, 0)
    case None =>
    case Some(i) =>
      var d := i + |sep|;
      var rest := s[d..];
      LastPiece(rest, sep);
      var k' := LastPieceStart(rest, sep);
      assert rest[k'..] == s[d + k'..];
      if IndexFrom(rest, sep, 0).Some? {
        OccursInSuffix(s, sep, d, k' - |sep|);
      } else {
        assert k' == 0;
      }
  }

  /** `split(sep)[0]` is the text before the first occurrence of `sep`
      (the whole string when there is none), and it exists whenever the
      string does not begin with the separator. */
  lemma SplitFirstIsTextBeforeFirstSeparator(s: string, sep: string)
    requires |sep| > 0
    ensures SplitFirst(s, sep).Some? ==>
      var p := SplitFirst(s, sep).value;
      && |p| <= |s| && s[..|p|] == p
      && (forall j :: 0 <= j < |p| ==> !OccursAt(s, sep, j))
      && (|p| == |s| || OccursAt(s, sep, |p|))
    ensures !OccursAt(s, sep, 0) ==> SplitFirst(s, sep).Some?
  {
    FirstPiece(s, sep);
    match IndexFrom(s, sep, 0)
    case None =>
    case Some(i) =>
      var ps := Pieces(s, sep);
      if !OccursAt(s, sep, 0) {
        assert ps[0] != "";
        var r := DropTrailingEmpty(ps);
        assert |r| > 0;
        assert r[0] == ps[0];
      }
  }

  /** When the string does not end with the separator, `split(sep)[last]`
      is the separator-free text after the last occurrence of `sep`
      (the whole string when there is none). */
  lemma SplitLastIsTextAfterLastSeparator(s: string, sep: string)
    requires |sep| > 0
    requires !OccursAt(s, sep, |s| - |sep|)
    ensures SplitLast(s, sep).Some?
    ensures var p := SplitLast(s, sep).value;
      && |p| <= |s| && s[|s| - |p|..] == p
      && (forall j :: !OccursAt(p, sep, j))
      && (|p| == |s| || OccursAt(s, sep, |s| - |p| - |sep|))
  {
    var ps := Pieces(s, sep);
    PiecesAreSeparatorFree(s, sep);
    LastPiece(s, sep);
    match IndexFrom(s, sep, 0)
    case None =>
      assert SplitLast(s, sep) == Some(s);
      assert s[|s| - |s|..] == s;
    case Some(i) =>
      var k := LastPieceStart(s, sep);
      assert k < |s|;
      assert ps[|ps| - 1] != "";
      assert DropTrailingEmpty(ps) == ps;
      assert SplitLast(s, sep) == Some(s[k..]);
  }

  /** Decimal digit `d` as a character. */
  function DigitChar(d: nat): char
    requires d < 10
  {
    "0123456789"[d]
  }

  predicate IsDigit(c: char)
  {
    '0' <= c <= '9'
  }

  /** Java's decimal rendering of a non-negative `int` in string
      concatenation. */
  function NatToString(n: nat): (r: string)
    ensures |r| > 0
    ensures forall i :: 0 <= i < |r| ==> IsDigit(r[i])
    ensures n < 10 <==> |r| == 1
  {
    if n < 10 then [DigitChar(n)] else NatToString(n / 10) + [DigitChar(n % 10)]
  }

  lemma DigitCharInjective(a: nat, b: nat)
    requires a < 10 && b < 10 && DigitChar(a) == DigitChar(b)
    ensures a == b
  {
  }

  /** Different numbers render differently. */
  lemma {:induction false} NatToStringInjective(a: nat, b: nat)
    requires NatToString(a) == NatToString(b)
    ensures a == b
    decreases a
  {
    var s := NatToString(a);
    if a < 10 || b < 10 {
      assert a < 10 && b < 10;
      assert s[0] == DigitChar(a) && s[0] == DigitChar(b);
      DigitCharInjective(a, b);
    } else {
      var pa := NatToString(a / 10);
      var pb := NatToString(b / 10);
      assert s == pa + [DigitChar(a % 10)] && s == pb + [DigitChar(b % 10)];
      assert pa == s[..|s| - 1] == pb;
      DigitCharInjective(a % 10, b % 10);
      NatToStringInjective(a / 10, b / 10);
    }
  }
}
