/** The segmentation of a free-text AI reply into numbered suggestions, shared by
    the analysis modal and the match modal:

        content.split(/\d+\.\s+/).filter(Boolean).map((s) => s.trim())

    `split` with a regular expression scans left to right, tries the pattern
    anchored at each position, and cuts the text around every match it takes;
    the pieces between matches are returned in order, including empty ones.
    The pattern has no capture groups and cannot match the empty string. */
module Segmentation {
  import opened JsValues
  import opened Strings
  import Seqs

  // ---------------------------------------------------------------------------
  // The pattern /\d+\.\s+/, tried at one position

  /** End of the longest run of digits starting at `q`. */
  function DigitRunEnd(s: string, q: nat): (e: nat)
    requires q <= |s|
    ensures q <= e <= |s|
    ensures forall k :: q <= k < e ==> IsDigit(s[k])
    ensures e == |s| || !IsDigit(s[e])
    decreases |s| - q
  {
    if q < |s| && IsDigit(s[q]) then DigitRunEnd(s, q + 1) else q
  }

  /** End of the longest run of whitespace starting at `q`. */
  function SpaceRunEnd(s: string, q: nat): (e: nat)
    requires q <= |s|
    ensures q <= e <= |s|
    ensures forall k :: q <= k < e ==> IsSpace(s[k])
    ensures e == |s| || !IsSpace(s[e])
    decreases |s| - q
  {
    if q < |s| && IsSpace(s[q]) then SpaceRunEnd(s, q + 1) else q
  }

  /** The match of `/\d+\.\s+/` anchored at `q`, as the end index of the match.
      `\d+` must stop right before the `.`, so only the longest digit run can
      succeed; `\s+` is greedy and nothing follows it. */
  function MatchAt(s: string, q: nat): (m: Option<nat>)
    requires q <= |s|
    ensures m.Some? ==> q < m.value <= |s|
  {
    var d := DigitRunEnd(s, q);
    if q < d && d + 1 < |s| && s[d] == '.' && IsSpace(s[d + 1]) then Some(SpaceRunEnd(s, d + 1)) else None
  }

  // ---------------------------------------------------------------------------
  // A declarative reading of the pattern

  predicate DigitsBetween(s: string, i: int, j: int) {
    0 <= i <= j <= |s| && forall k :: i <= k < j ==> IsDigit(s[k])
  }

  /** A digit run starting at `q`, then `.`, then at least one whitespace character. */
  ghost predicate MarkerAt(s: string, q: int) {
    exists j :: q < j && DigitsBetween(s, q, j) && j + 1 < |s| && s[j] == '.' && IsSpace(s[j + 1])
  }

  /** `t` contains a digit run followed by `.` and whitespace somewhere. */
  ghost predicate HasMarker(t: string) {
    exists q :: 0 <= q < |t| && MarkerAt(t, q)
  }

  /** `t` is one whole match of the pattern: digits, `.`, whitespace, nothing else. */
  ghost predicate IsMarker(t: string) {
    exists j :: 0 < j && j + 1 < |t| && t[j] == '.' && DigitsBetween(t, 0, j)
      && forall k :: j < k < |t| ==> IsSpace(t[k])
  }

  /** The anchored matcher succeeds exactly where the declarative reading sees a marker. */
  lemma MatchAtIff(s: string, q: nat)
    requires q <= |s|
    ensures MatchAt(s, q).Some? <==> MarkerAt(s, q)
  {
    var d := DigitRunEnd(s, q);
    if MatchAt(s, q).Some? {
      assert DigitsBetween(s, q, d);
    }
    if MarkerAt(s, q) {
      var j :| q < j && DigitsBetween(s, q, j) && j + 1 < |s| && s[j] == '.' && IsSpace(s[j + 1]);
      assert d == j;
    }
  }

  /** A marker inside a window of `s` is a marker of `s`. */
  lemma MarkerInWindow(s: string, p: nat, t: string, k: int)
    requires p + |t| <= |s| && t == s[p..p + |t|]
    requires MarkerAt(t, k)
    ensures MarkerAt(s, p + k)
  {
    var j :| k < j && DigitsBetween(t, k, j) && j + 1 < |t| && t[j] == '.' && IsSpace(t[j + 1]);
    assert s[p + j] == '.' && IsSpace(s[p + j + 1]);
    assert DigitsBetween(s, p + k, p + j) by {
      forall m | p + k <= m < p + j ensures IsDigit(s[m]) {
        assert s[m] == t[m - p];
      }
    }
  }

  /** No window of a marker-free string holds a marker. */
  lemma NoMarkerInWindow(s: string, p: nat, t: string)
    requires p + |t| <= |s| && t == s[p..p + |t|]
    requires !HasMarker(s)
    ensures !HasMarker(t)
  {
    if HasMarker(t) {
      var k :| 0 <= k < |t| && MarkerAt(t, k);
      MarkerInWindow(s, p, t, k);
    }
  }

  // ---------------------------------------------------------------------------
  // String.prototype.split with the pattern

  /** No match of the pattern starts at any position in `[p, q)`. */
  ghost predicate NoMatchBetween(s: string, p: nat, q: nat)
    requires p <= q <= |s|
  {
    forall k: nat :: p <= k < q ==> MatchAt(s, k).None?
  }

  /** The pieces of `s` from `p` on, having already found no match in `[p, q)`. */
  function SplitFrom(s: string, p: nat, q: nat): seq<string>
    requires p <= q <= |s|
    decreases |s| - q
  {
    if q == |s| then [s[p..]]
    else match MatchAt(s, q)
      case Some(e) => [s[p..q]] + SplitFrom(s, e, e)
      case None => SplitFrom(s, p, q + 1)
  }

  /** The matched separators of `s` from `q` on, in the same scan. */
  function SeparatorsFrom(s: string, q: nat): seq<string>
    requires q <= |s|
    decreases |s| - q
  {
    if q == |s| then []
    else match MatchAt(s, q)
      case Some(e) => [s[q..e]] + SeparatorsFrom(s, e)
      case None => SeparatorsFrom(s, q + 1)
  }

  /** `s.split(/\d+\.\s+/)`. */
  function Split(s: string): seq<string> {
    SplitFrom(s, 0, 0)
  }

  /** The text the split cut out, one entry per cut. */
  function Separators(s: string): seq<string> {
    SeparatorsFrom(s, 0)
  }

  /** Pieces and separators, alternating, starting and ending with a piece. */
  function Interleave(pieces: seq<string>, seps: seq<string>): string
    requires |pieces| == |seps| + 1
  {
    if seps == [] then pieces[0] else pieces[0] + seps[0] + Interleave(pieces[1..], seps[1..])
  }

  /** What a correct split into `pieces` around `seps` looks like: glued back
      together it is `t`; every separator is a whole marker; no piece holds a
      marker; a piece before a separator does not end in a digit (the digit run
      would have started the marker) and a piece after one does not start with
      whitespace (the greedy `\s+` would have taken it). */
  ghost predicate WellSplit(pieces: seq<string>, seps: seq<string>, t: string) {
    |pieces| == |seps| + 1
    && Interleave(pieces, seps) == t
    && (forall i :: 0 <= i < |seps| ==> IsMarker(seps[i]))
    && (forall i :: 0 <= i < |pieces| ==> !HasMarker(pieces[i]))
    && (forall i :: 0 <= i < |seps| ==> pieces[i] == [] || !IsDigit(pieces[i][|pieces[i]| - 1]))
    && (forall i :: 0 < i < |pieces| ==> pieces[i] == [] || !IsSpace(pieces[i][0]))
  }

  /** Adding one piece and one separator in front of a good split. */
  lemma WellSplitCons(piece: string, sep: string, rest: seq<string>, restSeps: seq<string>, t: string, whole: string)
    requires WellSplit(rest, restSeps, t) && piece + sep + t == whole
    requires IsMarker(sep) && !HasMarker(piece)
    requires piece == [] || !IsDigit(piece[|piece| - 1])
    requires rest[0] == [] || !IsSpace(rest[0][0])
    ensures WellSplit([piece] + rest, [sep] + restSeps, whole)
  {
    var pieces, seps := [piece] + rest, [sep] + restSeps;
    assert pieces[1..] == rest && seps[1..] == restSeps;
    assert forall i :: 0 < i < |pieces| ==> pieces[i] == rest[i - 1];
    assert forall i :: 0 < i < |seps| ==> seps[i] == restSeps[i - 1];
  }

  lemma PieceHasNoMarker(s: string, p: nat, q: nat)
    requires p <= q <= |s| && NoMatchBetween(s, p, q)
    ensures !HasMarker(s[p..q])
  {
    var t := s[p..q];
    if HasMarker(t) {
      var k :| 0 <= k < |t| && MarkerAt(t, k);
      MarkerInWindow(s, p, t, k);
      MatchAtIff(s, p + k);
    }
  }

  lemma SeparatorIsMarker(s: string, q: nat)
    requires q < |s| && MatchAt(s, q).Some?
    ensures IsMarker(s[q..MatchAt(s, q).value])
  {
    var d := DigitRunEnd(s, q);
    var e := MatchAt(s, q).value;
    var t := s[q..e];
    assert t[d - q] == '.';
    assert DigitsBetween(t, 0, d - q) by {
      forall m | 0 <= m < d - q ensures IsDigit(t[m]) {
        assert t[m] == s[q + m];
      }
    }
    forall k | d - q < k < |t| ensures IsSpace(t[k]) {
      assert t[k] == s[q + k];
    }
  }

  /** A piece that ends right before a match does not end in a digit. */
  lemma PieceBeforeMatch(s: string, p: nat, q: nat)
    requires p <= q < |s| && NoMatchBetween(s, p, q) && MatchAt(s, q).Some?
    ensures s[p..q] == [] || !IsDigit(s[q - 1])
  {
    if q > p && IsDigit(s[q - 1]) {
      DigitExtendsMatch(s, q);
    }
  }

  /** A digit right before a match starts a match of its own. */
  lemma DigitExtendsMatch(s: string, q: nat)
    requires 0 < q < |s| && IsDigit(s[q - 1]) && MatchAt(s, q).Some?
    ensures MatchAt(s, q - 1).Some?
  {
    assert DigitRunEnd(s, q - 1) == DigitRunEnd(s, q);
  }

  /** The scan from `p`, with no match found in `[p, q)`, splits `s[p..]` well. */
  lemma {:induction false} SplitFromWellSplit(s: string, p: nat, q: nat)
    requires p <= q <= |s| && NoMatchBetween(s, p, q)
    ensures WellSplit(SplitFrom(s, p, q), SeparatorsFrom(s, q), s[p..])
    decreases |s| - q
  {
    if q == |s| {
      PieceHasNoMarker(s, p, q);
      assert s[p..q] == s[p..];
    } else {
      match MatchAt(s, q)
      case Some(e) =>
        SplitFromWellSplit(s, e, e);
        RestStartsClean(s, q, e);
        SplitStep(s, p, q, e, SplitFrom(s, e, e), SeparatorsFrom(s, e));
      case None =>
        SplitFromWellSplit(s, p, q + 1);
    }
  }

  /** One cut: the piece before the match at `q`, the match, then a good split of the rest. */
  lemma SplitStep(s: string, p: nat, q: nat, e: nat, rest: seq<string>, restSeps: seq<string>)
    requires p <= q < |s| && NoMatchBetween(s, p, q) && MatchAt(s, q) == Some(e)
    requires WellSplit(rest, restSeps, s[e..])
    requires rest[0] == [] || !IsSpace(rest[0][0])
    ensures WellSplit([s[p..q]] + rest, [s[q..e]] + restSeps, s[p..])
  {
    PieceHasNoMarker(s, p, q);
    SeparatorIsMarker(s, q);
    PieceBeforeMatch(s, p, q);
    ThreeSlices(s, p, q, e);
    WellSplitCons(s[p..q], s[q..e], rest, restSeps, s[e..], s[p..]);
  }

  /** The scan resumes at the end of a match, where no whitespace is left. */
  lemma RestStartsClean(s: string, q: nat, e: nat)
    requires q < |s| && MatchAt(s, q) == Some(e)
    ensures |SplitFrom(s, e, e)| > 0
    ensures var rest := SplitFrom(s, e, e); rest[0] == [] || !IsSpace(rest[0][0])
  {
    FirstPieceStartsAt(s, e, e);
    var d := DigitRunEnd(s, q);
    assert e == SpaceRunEnd(s, d + 1);
  }

  lemma ThreeSlices(s: string, p: nat, q: nat, e: nat)
    requires p <= q <= e <= |s|
    ensures s[p..q] + s[q..e] + s[e..] == s[p..]
  {
    assert s[q..] == s[q..e] + s[e..];
    assert s[p..] == s[p..q] + s[q..];
  }

  /** The first piece of the scan from `p` starts at `p`. */
  lemma {:induction false} FirstPieceStartsAt(s: string, p: nat, q: nat)
    requires p <= q <= |s|
    ensures |SplitFrom(s, p, q)| > 0
    ensures var piece := SplitFrom(s, p, q)[0]; |piece| <= |s| - p && piece == s[p..p + |piece|]
    decreases |s| - q
  {
    if q < |s| && MatchAt(s, q).None? {
      FirstPieceStartsAt(s, p, q + 1);
    }
  }

  /** `split` cuts its input into marker-free pieces around whole markers,
      leftmost first, and nothing is lost: the pieces and separators glue back
      into the input. */
  lemma SplitIsWellSplit(s: string)
    ensures WellSplit(Split(s), Separators(s), s)
  {
    SplitFromWellSplit(s, 0, 0);
    assert s[0..] == s;
  }

  /** Without any marker, `split` returns the whole input as its one piece. */
  lemma {:induction false} SplitWithoutMatch(s: string, p: nat, q: nat)
    requires p <= q <= |s| && NoMatchBetween(s, q, |s|)
    ensures SplitFrom(s, p, q) == [s[p..]]
    decreases |s| - q
  {
    if q < |s| {
      SplitWithoutMatch(s, p, q + 1);
    }
  }

  // ---------------------------------------------------------------------------
  // The suggestion pipeline

  predicate NonEmpty(s: string) {
    s != ""
  }

  /** `content.split(/\d+\.\s+/).filter(Boolean).map((s) => s.trim())`. Empty
      pieces are dropped before trimming, so a whitespace-only piece becomes
      an empty suggestion. */
  function Segments(content: string): seq<string> {
    Seqs.Map(Seqs.Filter(Split(content), NonEmpty), Trim)
  }

  /** Empty content yields no suggestions. */
  lemma SegmentsOfEmpty()
    ensures Segments("") == []
  {
    assert Split("") == [""];
  }

  /** Content without a marker is one suggestion: the trimmed content. */
  lemma SegmentsWithoutMarker(content: string)
    requires content != "" && !HasMarker(content)
    ensures Segments(content) == [Trim(content)]
  {
    forall k: nat | 0 <= k < |content| ensures MatchAt(content, k).None? {
      MatchAtIff(content, k);
    }
    SplitWithoutMatch(content, 0, 0);
    assert content[0..] == content;
    assert Split(content) == [content];
    assert Seqs.Filter(Split(content), NonEmpty) == [content];
  }

  /** Every suggestion is trimmed and holds no `digits "." whitespace` marker. */
  lemma SegmentsAreClean(content: string)
    ensures forall x :: x in Segments(content) ==> IsTrimmed(x) && !HasMarker(x)
  {
    SplitPiecesAreClean(content);
    var kept := Seqs.Filter(Split(content), NonEmpty);
    forall i | 0 <= i < |kept| ensures IsTrimmed(Trim(kept[i])) && !HasMarker(Trim(kept[i])) {
      TrimmedIsClean(kept[i]);
    }
  }

  lemma SplitPiecesAreClean(content: string)
    ensures forall piece :: piece in Split(content) ==> !HasMarker(piece)
  {
    SplitIsWellSplit(content);
  }

  lemma TrimmedIsClean(piece: string)
    requires !HasMarker(piece)
    ensures IsTrimmed(Trim(piece)) && !HasMarker(Trim(piece))
  {
    var start := TrimWindow(piece);
    NoMarkerInWindow(piece, start, Trim(piece));
  }

  /** The suggestions are the trimmed non-empty pieces, in order. */
  lemma SegmentsAreTrimmedPieces(content: string)
    ensures forall x :: x in Segments(content) <==>
      exists piece :: piece in Split(content) && piece != "" && x == Trim(piece)
  {
    forall x ensures x in Segments(content) <==>
      exists piece :: piece in Split(content) && piece != "" && x == Trim(piece)
    {
      KeptPieceIff(Split(content), x);
    }
  }

  /** `x` is among the trimmed non-empty pieces exactly when some non-empty piece trims to it. */
  lemma KeptPieceIff(pieces: seq<string>, x: string)
    ensures x in Seqs.Map(Seqs.Filter(pieces, NonEmpty), Trim) <==>
      exists piece :: piece in pieces && piece != "" && x == Trim(piece)
  {
    var kept := Seqs.Filter(pieces, NonEmpty);
    var trimmed := Seqs.Map(kept, Trim);
    if exists piece :: piece in pieces && piece != "" && x == Trim(piece) {
      var piece :| piece in pieces && piece != "" && x == Trim(piece);
      Seqs.FilterMembership(pieces, NonEmpty, piece);
      var i :| 0 <= i < |kept| && kept[i] == piece;
      assert trimmed[i] == x;
    }
    if x in trimmed {
      var i :| 0 <= i < |trimmed| && trimmed[i] == x;
      assert kept[i] in kept;
    }
  }

  /** A leading whitespace-only piece survives as an empty suggestion. */
  lemma WhitespacePieceBecomesEmpty()
    ensures Segments(" 1. x") == ["", "x"]
  {
    ExampleSplit();
    assert Seqs.Filter([" ", "x"], NonEmpty) == [" ", "x"];
    ExampleTrims();
  }

  /** `" 1. x".split(/\d+\.\s+/)` is `[" ", "x"]`. */
  lemma ExampleSplit()
    ensures Split(" 1. x") == [" ", "x"]
  {
    var s := " 1. x";
    ExampleMatches();
    assert SplitFrom(s, 4, 5) == [s[4..]] == ["x"];
    assert SplitFrom(s, 4, 4) == ["x"];
    assert s[0..1] == " ";
    assert SplitFrom(s, 0, 1) == [s[0..1]] + SplitFrom(s, 4, 4);
  }

  lemma ExampleMatches()
    ensures MatchAt(" 1. x", 0) == None
    ensures MatchAt(" 1. x", 1) == Some(4)
    ensures MatchAt(" 1. x", 4) == None
  {
    var s := " 1. x";
    assert DigitRunEnd(s, 1) == 2;
    assert SpaceRunEnd(s, 3) == 4;
  }

  lemma ExampleTrims()
    ensures Seqs.Map([" ", "x"], Trim) == ["", "x"]
  {
    var blank, letter := " ", "x";
    assert AllSpace(blank) && IsTrimmed(letter);
    TrimsOfPieces(blank, letter);
  }

  /** Trimming a whitespace-only piece and a trimmed piece. */
  lemma TrimsOfPieces(blank: string, trimmed: string)
    requires AllSpace(blank) && IsTrimmed(trimmed)
    ensures Seqs.Map([blank, trimmed], Trim) == ["", trimmed]
  {
    MapPair(blank, trimmed, Trim);
    TrimEmptyIff(blank);
    TrimOfTrimmed(trimmed);
  }

  lemma MapPair<T, U>(a: T, b: T, f: T -> U)
    ensures Seqs.Map([a, b], f) == [f(a), f(b)]
  {
    var m := Seqs.Map([a, b], f);
    assert m[0] == f(a) && m[1] == f(b);
  }

  lemma TrimOfTrimmed(s: string)
    requires IsTrimmed(s)
    ensures Trim(s) == s
  {
    assert TrimStart(s) == s;
  }
}
