/**
 * The section parser of the troubleshooting store (`load_sections`).
 *
 * The store is one flat text. A marker line begins at column 0 with "# " and
 * has at least one more character before the end of its line; the rest of
 * that line is the marker's name. `load_sections` splits the text with
 * `re.split(r'(?m)^# (.+)$', raw)`, which alternates bodies and captured
 * names; `SplitParts` states that split by character positions and
 * `ScanParts` computes it with a line scanner. `SectionsOf` then folds the
 * pieces into named sections, and `ReferenceParse` describes the result a
 * second way, marker by marker, with `ParseMatchesReference` tying the two.
 */
module Parser {
  import opened Text

  /** One named piece of the store; duplicates of a name are kept apart. */
  datatype Section = Section(name: string, body: string)

  /** The name `load_sections` gives to non-blank text before the first marker. */
  const GeneralName: string := "General"

  // ---------------------------------------------------------------------
  // The split, by positions
  // ---------------------------------------------------------------------

  /** `^# (.+)$` in multiline mode matches at index `i` of `s`. */
  predicate IsMarkerAt(s: string, i: nat) {
    && i + 2 < |s|
    && (i == 0 || s[i - 1] == '\n')
    && s[i] == '#' && s[i + 1] == ' '
    && s[i + 2] != '\n'
  }

  /** The index of the first newline at or after `i`, or `|s|`. */
  function LineEnd(s: string, i: nat): (e: nat)
    requires i <= |s|
    ensures i <= e <= |s|
    ensures e < |s| ==> s[e] == '\n'
    ensures forall k :: i <= k < e ==> s[k] != '\n'
    decreases |s| - i
  {
    if i == |s| || s[i] == '\n' then i else LineEnd(s, i + 1)
  }

  /** The first marker at or after `p`, or `|s|` when there is none. */
  function NextMarker(s: string, p: nat): (m: nat)
    requires p <= |s|
    ensures p <= m <= |s|
    ensures m < |s| ==> IsMarkerAt(s, m)
    ensures forall k :: p <= k < m ==> !IsMarkerAt(s, k)
    decreases |s| - p
  {
    if p == |s| || IsMarkerAt(s, p) then p else NextMarker(s, p + 1)
  }

  /** `NextMarker` is the first marker: a position with no marker before it is that marker. */
  lemma NextMarkerIs(s: string, p: nat, m: nat)
    requires p <= m <= |s|
    requires m < |s| ==> IsMarkerAt(s, m)
    requires forall k :: p <= k < m ==> !IsMarkerAt(s, k)
    ensures NextMarker(s, p) == m
  {
  }

  /** No line starts strictly inside a stretch without newlines, so no marker does. */
  lemma NoMarkerWithinLine(s: string, a: nat, b: nat)
    requires a <= b <= |s|
    requires forall k :: a <= k < b ==> s[k] != '\n'
    ensures forall k :: a < k <= b ==> !IsMarkerAt(s, k)
  {
    forall k | a < k <= b ensures !IsMarkerAt(s, k) {
      assert s[k - 1] != '\n';
    }
  }

  /**
   * `re.split` of `s[p..]`: the text up to the next marker, that marker's
   * captured name, and the split of what follows the name (which starts at
   * the newline ending the marker line, or at the end of the text).
   */
  function SplitFrom(s: string, p: nat): (parts: seq<string>)
    requires p <= |s|
    ensures |parts| >= 1
    ensures parts[0] == s[p..NextMarker(s, p)]
    decreases |s| - p
  {
    var m := NextMarker(s, p);
    if m == |s| then [s[p..]]
    else
      var e := LineEnd(s, m + 2);
      [s[p..m], s[m + 2..e]] + SplitFrom(s, e)
  }

  /** `re.split(r'(?m)^# (.+)$', s)`: bodies at even indices, captured names at odd ones. */
  function SplitParts(s: string): seq<string> {
    SplitFrom(s, 0)
  }

  /** Put the split back together: each name regains its "# ". */
  function Rejoin(parts: seq<string>): string
    requires |parts| >= 1
    decreases |parts|
  {
    if |parts| == 1 then parts[0]
    else parts[0] + "# " + parts[1] + (if |parts| == 2 then "" else Rejoin(parts[2..]))
  }

  /** The split loses nothing: rejoining the pieces gives back the text. */
  lemma {:induction false} RejoinSplitFrom(s: string, p: nat)
    requires p <= |s|
    ensures Rejoin(SplitFrom(s, p)) == s[p..]
    decreases |s| - p
  {
    var m := NextMarker(s, p);
    if m < |s| {
      var e := LineEnd(s, m + 2);
      RejoinSplitFrom(s, e);
      RejoinAtMarker(s, p, m, e);
    } else {
      assert SplitFrom(s, p) == [s[p..]];
    }
  }

  lemma RejoinAtMarker(s: string, p: nat, m: nat, e: nat)
    requires p <= |s| && m == NextMarker(s, p) < |s| && e == LineEnd(s, m + 2)
    requires Rejoin(SplitFrom(s, e)) == s[e..]
    ensures Rejoin(SplitFrom(s, p)) == s[p..]
  {
    SplitFromStep(s, p, m, e);
    RejoinStep(s, p, m, e, SplitFrom(s, e), SplitFrom(s, p));
  }

  lemma RejoinStep(s: string, p: nat, m: nat, e: nat, rest: seq<string>, parts: seq<string>)
    requires p <= m && m + 2 <= e <= |s| && s[m] == '#' && s[m + 1] == ' '
    requires |rest| >= 1 && Rejoin(rest) == s[e..]
    requires parts == [s[p..m], s[m + 2..e]] + rest
    ensures |parts| >= 1 && Rejoin(parts) == s[p..]
  {
    RejoinCons(s[p..m], s[m + 2..e], rest);
    SliceSplit(s, p, m);
    SliceSplit(s, m, m + 2);
    SliceSplit(s, m + 2, e);
    assert s[m..m + 2] == "# ";
    var a, b, r := s[p..m], s[m + 2..e], s[e..];
    Associative(a, "# ", b);
    Associative(a, "# " + b, r);
    Associative("# ", b, r);
  }

  lemma RejoinCons(a: string, b: string, rest: seq<string>)
    requires |rest| >= 1
    ensures Rejoin([a, b] + rest) == a + "# " + b + Rejoin(rest)
  {
    assert ([a, b] + rest)[2..] == rest;
  }

  /** One marker step of the split: a body, a name, then the split of the rest. */
  lemma SplitFromStep(s: string, p: nat, m: nat, e: nat)
    requires p <= |s| && m == NextMarker(s, p) < |s| && e == LineEnd(s, m + 2)
    ensures p <= m && m + 2 <= e <= |s| && s[m] == '#' && s[m + 1] == ' '
    ensures SplitFrom(s, p) == [s[p..m], s[m + 2..e]] + SplitFrom(s, e)
  {
  }

  /** Parity without modular arithmetic. */
  predicate Odd(n: nat)
    decreases n
  {
    if n < 2 then n == 1 else Odd(n - 2)
  }

  /** The number of name/body pairs after the first piece of an odd-length split. */
  function Pairs(n: nat): (k: nat)
    requires Odd(n)
    ensures 2 * k + 1 == n
    decreases n
  {
    if n < 2 then 0 else 1 + Pairs(n - 2)
  }

  lemma OddPlusTwo(n: nat, k: nat)
    requires Odd(n) && k == n + 2
    ensures Odd(k)
  {
  }

  /** The split alternates bodies and names, starting and ending with a body. */
  lemma {:induction false} SplitFromOdd(s: string, p: nat)
    requires p <= |s|
    ensures Odd(|SplitFrom(s, p)|)
    decreases |s| - p
  {
    var m := NextMarker(s, p);
    if m < |s| {
      var e := LineEnd(s, m + 2);
      SplitFromStep(s, p, m, e);
      SplitFromOdd(s, e);
      OddPlusTwo(|SplitFrom(s, e)|, |SplitFrom(s, p)|);
    } else {
      assert |SplitFrom(s, p)| == 1;
    }
  }

  lemma SplitRejoin(s: string)
    ensures Rejoin(SplitParts(s)) == s
  {
    RejoinSplitFrom(s, 0);
  }

  // ---------------------------------------------------------------------
  // The scanner
  // ---------------------------------------------------------------------

  /**
   * Line scanner for the split: at every position it either recognises a
   * marker line, or copies the rest of the current line into the piece
   * being collected.
   */
  method ScanParts(raw: string) returns (parts: seq<string>)
    ensures parts == SplitParts(raw)
  {
    parts := [];
    var start := 0;
    var pos := 0;
    while pos < |raw|
      invariant start <= pos <= |raw|
      invariant forall k :: start <= k < pos ==> !IsMarkerAt(raw, k)
      invariant parts + SplitFrom(raw, start) == SplitParts(raw)
      decreases |raw| - pos
    {
      var atLineStart := pos == 0 || raw[pos - 1] == '\n';
      if atLineStart && pos + 2 < |raw| && raw[pos] == '#' && raw[pos + 1] == ' ' && raw[pos + 2] != '\n' {
        var q := pos + 2;
        var e := FindLineEnd(raw, q);
        ScanMarker(raw, parts, start, pos, q, e);
        parts := parts + [raw[start..pos], raw[q..e]];
        start, pos := e, e;
      } else {
        var e := FindLineEnd(raw, pos);
        var next := if e < |raw| then e + 1 else e;
        ScanLine(raw, start, pos, e, next);
        pos := next;
      }
    }
    NextMarkerIs(raw, start, |raw|);
    parts := parts + [raw[start..]];
  }

  /** A marker line at `m`: its body and name join the pieces collected so far. */
  lemma ScanMarker(s: string, parts: seq<string>, p: nat, m: nat, q: nat, e: nat)
    requires p <= m < |s| && IsMarkerAt(s, m) && q == m + 2 && e == LineEnd(s, q)
    requires forall k :: p <= k < m ==> !IsMarkerAt(s, k)
    requires parts + SplitFrom(s, p) == SplitParts(s)
    ensures e <= |s|
    ensures (parts + [s[p..m], s[q..e]]) + SplitFrom(s, e) == SplitParts(s)
  {
    SplitAtMarker(s, p, m, q, e);
    Associative(parts, [s[p..m], s[q..e]], SplitFrom(s, e));
  }

  /** A line that is not a marker line holds no marker, up to the start of the next line. */
  lemma ScanLine(s: string, p: nat, i: nat, e: nat, next: nat)
    requires p <= i < |s| && !IsMarkerAt(s, i) && e == LineEnd(s, i)
    requires next == if e < |s| then e + 1 else e
    requires forall k :: p <= k < i ==> !IsMarkerAt(s, k)
    ensures i < next <= |s|
    ensures forall k :: p <= k < next ==> !IsMarkerAt(s, k)
  {
    NoMarkerWithinLine(s, i, e);
  }

  /** The split from `p` when its first marker is at `m`. */
  lemma SplitAtMarker(s: string, p: nat, m: nat, q: nat, e: nat)
    requires p <= m < |s| && IsMarkerAt(s, m) && q == m + 2 && e == LineEnd(s, q)
    requires forall k :: p <= k < m ==> !IsMarkerAt(s, k)
    ensures SplitFrom(s, p) == [s[p..m], s[q..e]] + SplitFrom(s, e)
  {
    NextMarkerIs(s, p, m);
    SplitFromStep(s, p, m, e);
  }

  /** Scan forward from `i` to the newline that ends the line, or to the end. */
  method FindLineEnd(raw: string, i: nat) returns (e: nat)
    requires i <= |raw|
    ensures e == LineEnd(raw, i)
  {
    e := i;
    while e < |raw| && raw[e] != '\n'
      invariant i <= e <= |raw|
      invariant forall k :: i <= k < e ==> raw[k] != '\n'
    {
      e := e + 1;
    }
  }

  // ---------------------------------------------------------------------
  // Folding the pieces into sections
  // ---------------------------------------------------------------------

  /** The synthetic "General" section for non-blank text before the first marker. */
  function Preface(parts: seq<string>): seq<Section>
    requires |parts| >= 1
  {
    if Strip(parts[0]) != "" then [Section(GeneralName, parts[0])] else []
  }

  /**
   * One round of the loop `for i in range(1, len(parts), 2)`: the stripped
   * name and the body after it make a section only when the name is not
   * empty.
   */
  function NamedAt(parts: seq<string>, i: nat): seq<Section>
    requires i < |parts|
  {
    var name := Strip(parts[i]);
    var body := if i + 1 < |parts| then parts[i + 1] else "";
    if name != "" then [Section(name, body)] else []
  }

  /** The rounds of that loop from index `i` on. */
  function NamedFrom(parts: seq<string>, i: nat): seq<Section>
    decreases |parts| - i
  {
    if i >= |parts| then [] else NamedAt(parts, i) + NamedFrom(parts, i + 2)
  }

  function SectionsOf(parts: seq<string>): seq<Section>
    requires |parts| >= 1
  {
    Preface(parts) + NamedFrom(parts, 1)
  }

  /** The sections of the store text `raw`. */
  function Parse(raw: string): seq<Section> {
    SectionsOf(SplitParts(raw))
  }

  /** The fold, as `load_sections` runs it over the pieces of the split. */
  method CollectSections(parts: seq<string>) returns (secs: seq<Section>)
    requires |parts| >= 1
    ensures secs == SectionsOf(parts)
  {
    secs := [];
    if Strip(parts[0]) != "" {
      secs := secs + [Section(GeneralName, parts[0])];
    }
    assert secs == Preface(parts);
    var i := 1;
    while i < |parts|
      invariant 1 <= i <= |parts| + 1
      invariant secs + NamedFrom(parts, i) == SectionsOf(parts)
    {
      var name := if i < |parts| then Strip(parts[i]) else "";
      var body := if i + 1 < |parts| then parts[i + 1] else "";
      ghost var prev := secs;
      if name != "" {
        secs := secs + [Section(name, body)];
      }
      assert secs == prev + NamedAt(parts, i);
      Associative(prev, NamedAt(parts, i), NamedFrom(parts, i + 2));
      i := i + 2;
    }
  }

  /** Every section name is non-empty and already stripped. */
  lemma {:induction false} NamedFromClean(parts: seq<string>, i: nat)
    ensures forall k :: 0 <= k < |NamedFrom(parts, i)| ==>
              NamedFrom(parts, i)[k].name != "" && Strip(NamedFrom(parts, i)[k].name) == NamedFrom(parts, i)[k].name
    decreases |parts| - i
  {
    if i < |parts| {
      NamedFromClean(parts, i + 2);
      StripIdempotent(parts[i]);
    }
  }

  lemma ParseNamesClean(raw: string)
    ensures forall k :: 0 <= k < |Parse(raw)| ==>
              Parse(raw)[k].name != "" && Strip(Parse(raw)[k].name) == Parse(raw)[k].name
  {
    var parts := SplitParts(raw);
    NamedFromClean(parts, 1);
    StripNoEdges(GeneralName);
  }

  // ---------------------------------------------------------------------
  // The same result, marker by marker
  // ---------------------------------------------------------------------

  /** Every marker position at or after `p`, in increasing order. */
  function MarkersFrom(s: string, p: nat): (ms: seq<nat>)
    requires p <= |s|
    ensures forall k :: 0 <= k < |ms| ==> p <= ms[k] < |s| && IsMarkerAt(s, ms[k])
    decreases |s| - p
  {
    if p == |s| then [] else (if IsMarkerAt(s, p) then [p] else []) + MarkersFrom(s, p + 1)
  }

  lemma IncreasingCons(head: seq<nat>, tail: seq<nat>, p: nat)
    requires |head| <= 1 && (|head| == 1 ==> head[0] == p)
    requires forall k :: 0 <= k < |tail| ==> p < tail[k]
    requires forall k, l :: 0 <= k < l < |tail| ==> tail[k] < tail[l]
    ensures forall k, l :: 0 <= k < l < |head + tail| ==> (head + tail)[k] < (head + tail)[l]
  {
    forall k, l | 0 <= k < l < |head + tail| ensures (head + tail)[k] < (head + tail)[l] {
      assert (head + tail)[l] == tail[l - |head|];
      if k >= |head| {
        assert (head + tail)[k] == tail[k - |head|];
      }
    }
  }

  /** The markers are listed once each, in increasing order, and none is missed. */
  lemma {:induction false} MarkersFromExact(s: string, p: nat)
    requires p <= |s|
    ensures forall k, l :: 0 <= k < l < |MarkersFrom(s, p)| ==> MarkersFrom(s, p)[k] < MarkersFrom(s, p)[l]
    ensures forall i :: p <= i < |s| && IsMarkerAt(s, i) ==> i in MarkersFrom(s, p)
    decreases |s| - p
  {
    if p < |s| {
      var p1 := p + 1;
      MarkersFromExact(s, p1);
      MarkersFromUnfold(s, p, p1);
      var head: seq<nat> := if IsMarkerAt(s, p) then [p] else [];
      IncreasingCons(head, MarkersFrom(s, p1), p);
    }
  }

  /** The marker's name as captured by `(.+)`: the rest of its line after "# ". */
  function MarkerName(s: string, m: nat): string
    requires IsMarkerAt(s, m)
  {
    s[m + 2..LineEnd(s, m + 2)]
  }

  /** The marker's body: from the end of its line up to the next marker or the end. */
  function MarkerBody(s: string, m: nat): string
    requires IsMarkerAt(s, m)
  {
    var e := LineEnd(s, m + 2);
    s[e..NextMarker(s, e)]
  }

  /** The text before the first marker. */
  function Preamble(s: string): string {
    s[..NextMarker(s, 0)]
  }

  /** The section a marker stands for: its stripped name and its body. */
  function MarkerSection(s: string, m: nat): Section
    requires IsMarkerAt(s, m)
  {
    Section(Strip(MarkerName(s, m)), MarkerBody(s, m))
  }

  /** One section per marker whose name is not blank, in marker order. */
  function FromMarkers(s: string, ms: seq<nat>): seq<Section>
    requires forall k :: 0 <= k < |ms| ==> IsMarkerAt(s, ms[k])
  {
    if ms == [] then []
    else
      var m := ms[0];
      (if IsBlank(MarkerName(s, m)) then [] else [MarkerSection(s, m)])
      + FromMarkers(s, ms[1..])
  }

  /** A marker-by-marker description of the parse. */
  function ReferenceParse(s: string): seq<Section> {
    (if IsBlank(Preamble(s)) then [] else [Section(GeneralName, Preamble(s))])
    + FromMarkers(s, MarkersFrom(s, 0))
  }

  lemma {:induction false} MarkersSkip(s: string, p: nat, q: nat)
    requires p <= q <= |s|
    requires forall k :: p <= k < q ==> !IsMarkerAt(s, k)
    ensures MarkersFrom(s, p) == MarkersFrom(s, q)
    decreases q - p
  {
    if p < q {
      MarkersSkip(s, p + 1, q);
    }
  }

  /** One round of the fold, then the rest from the next name on (`j2` is `j + 2`). */
  lemma NamedFromUnfold(parts: seq<string>, j: nat, j2: nat)
    requires j < |parts| && j2 == j + 2
    ensures NamedFrom(parts, j) == NamedAt(parts, j) + NamedFrom(parts, j2)
  {
  }

  lemma NamedFromPast(parts: seq<string>, j: nat)
    requires j >= |parts|
    ensures NamedFrom(parts, j) == []
  {
  }

  /**
   * The fold over a suffix: from index `j` of `all` it is the fold over
   * `rest` from `i`, when `rest` is what follows the first `n` pieces.
   */
  lemma {:induction false} NamedFromSuffix(all: seq<string>, n: nat, rest: seq<string>, i: nat, j: nat)
    requires n <= |all| && all[n..] == rest && j == i + n
    ensures NamedFrom(all, j) == NamedFrom(rest, i)
    decreases |rest| - i
  {
    if i < |rest| {
      var i2, j2 := i + 2, j + 2;
      NamedFromSuffix(all, n, rest, i2, j2);
      NamedAtSuffix(all, n, rest, i, j);
      NamedFromUnfold(all, j, j2);
      NamedFromUnfold(rest, i, i2);
    } else {
      NamedFromPast(all, j);
      NamedFromPast(rest, i);
    }
  }

  lemma NamedAtSuffix(all: seq<string>, n: nat, rest: seq<string>, i: nat, j: nat)
    requires n <= |all| && all[n..] == rest && i < |rest| && j == i + n
    ensures NamedAt(all, j) == NamedAt(rest, i)
  {
    assert all[j] == rest[i];
    if i + 1 < |rest| {
      assert all[j + 1] == rest[i + 1];
    }
  }

  /** The fold over the split from `p` yields exactly one section per non-blank marker. */
  lemma {:induction false} NamedFromMarkers(s: string, p: nat)
    requires p <= |s|
    ensures NamedFrom(SplitFrom(s, p), 1) == FromMarkers(s, MarkersFrom(s, p))
    decreases |s| - p
  {
    var m := NextMarker(s, p);
    if m < |s| {
      var e := LineEnd(s, m + 2);
      NamedFromMarkers(s, e);
      NamedMarkerStep(s, p, m, e);
    } else {
      MarkersSkip(s, p, m);
      assert SplitFrom(s, p) == [s[p..]];
    }
  }

  lemma NamedMarkerStep(s: string, p: nat, m: nat, e: nat)
    requires p <= |s| && m == NextMarker(s, p) < |s| && e == LineEnd(s, m + 2)
    requires NamedFrom(SplitFrom(s, e), 1) == FromMarkers(s, MarkersFrom(s, e))
    ensures NamedFrom(SplitFrom(s, p), 1) == FromMarkers(s, MarkersFrom(s, p))
  {
    SplitFromStep(s, p, m, e);
    MarkersAtMarker(s, p, m, e);
    NamedFromPair(s[p..m], s[m + 2..e], SplitFrom(s, e));
    FromMarkersCons(s, m, MarkersFrom(s, e));
    BlankStrip(MarkerName(s, m));
  }

  /** The markers from `p` are the first one, `m`, then those after its line. */
  lemma MarkersAtMarker(s: string, p: nat, m: nat, e: nat)
    requires p <= |s| && m == NextMarker(s, p) < |s| && e == LineEnd(s, m + 2)
    ensures MarkersFrom(s, p) == [m] + MarkersFrom(s, e)
  {
    var m1 := m + 1;
    MarkersSkip(s, p, m);
    MarkersFromUnfold(s, m, m1);
    NoMarkerOnMarkerLine(s, m, m1, m + 2, e);
    MarkersSkip(s, m1, e);
  }

  lemma MarkersFromUnfold(s: string, i: nat, i1: nat)
    requires i < |s| && i1 == i + 1
    ensures MarkersFrom(s, i) == (if IsMarkerAt(s, i) then [i] else []) + MarkersFrom(s, i1)
  {
  }

  /** After a marker at `m`, no marker starts before the end of its line. */
  lemma NoMarkerOnMarkerLine(s: string, m: nat, m1: nat, q: nat, e: nat)
    requires IsMarkerAt(s, m) && m1 == m + 1 && q == m + 2 && e == LineEnd(s, q)
    ensures m1 <= e && forall k :: m1 <= k < e ==> !IsMarkerAt(s, k)
  {
    NoMarkerWithinLine(s, q, e);
    assert s[m1] == ' ' && s[q - 1] == ' ';
  }

  /** The first round of the fold over a name `b` followed by `rest`. */
  lemma NamedFromPair(a: string, b: string, rest: seq<string>)
    requires |rest| >= 1
    ensures NamedFrom([a, b] + rest, 1)
            == (if Strip(b) != "" then [Section(Strip(b), rest[0])] else []) + NamedFrom(rest, 1)
  {
    var all := [a, b] + rest;
    assert all[2..] == rest;
    NamedFromSuffix(all, 2, rest, 1, 3);
    NamedFromUnfold(all, 1, 3);
    assert all[1] == b;
    assert all[2] == rest[0];
  }

  lemma FromMarkersCons(s: string, m: nat, ms: seq<nat>)
    requires IsMarkerAt(s, m) && forall k :: 0 <= k < |ms| ==> IsMarkerAt(s, ms[k])
    ensures FromMarkers(s, [m] + ms)
            == (if IsBlank(MarkerName(s, m)) then [] else [MarkerSection(s, m)])
               + FromMarkers(s, ms)
  {
    assert ([m] + ms)[1..] == ms;
  }

  lemma BlankStrip(x: string)
    ensures (Strip(x) != "") == !IsBlank(x)
  {
    StripSpec(x);
  }

  /** The split-and-fold parse agrees with the marker-by-marker description. */
  lemma ParseMatchesReference(s: string)
    ensures Parse(s) == ReferenceParse(s)
  {
    NamedFromMarkers(s, 0);
    BlankStrip(Preamble(s));
  }

  /**
   * The "General" section exists exactly when the text before the first
   * marker is not blank, and then it is the first section. Every later
   * section comes from a marker, so a section at an index above 0 is named
   * "General" only when its marker line says so.
   */
  lemma GeneralFirst(s: string)
    ensures !IsBlank(Preamble(s)) <==> |Parse(s)| == |FromMarkers(s, MarkersFrom(s, 0))| + 1
    ensures IsBlank(Preamble(s)) <==> |Parse(s)| == |FromMarkers(s, MarkersFrom(s, 0))|
    ensures !IsBlank(Preamble(s)) ==> Parse(s)[0] == Section(GeneralName, Preamble(s))
  {
    ParseMatchesReference(s);
  }

  /** The markers among `ms` whose names are not blank, in order. */
  function NonBlankMarkers(s: string, ms: seq<nat>): (nb: seq<nat>)
    requires forall k :: 0 <= k < |ms| ==> IsMarkerAt(s, ms[k])
    ensures forall k :: 0 <= k < |nb| ==> IsMarkerAt(s, nb[k])
  {
    if ms == [] then []
    else (if IsBlank(MarkerName(s, ms[0])) then [] else [ms[0]]) + NonBlankMarkers(s, ms[1..])
  }

  /** The markers kept are exactly those of `ms` whose names are not blank. */
  lemma {:induction false} NonBlankMarkersExact(s: string, ms: seq<nat>)
    requires forall k :: 0 <= k < |ms| ==> IsMarkerAt(s, ms[k])
    ensures forall m :: m in NonBlankMarkers(s, ms) <==> m in ms && !IsBlank(MarkerName(s, m))
  {
    if ms != [] {
      NonBlankMarkersExact(s, ms[1..]);
      assert ms == [ms[0]] + ms[1..];
    }
  }

  /** `secs` holds, in order, one section per marker of `nb`: its stripped name and its body. */
  predicate MarkerSections(s: string, nb: seq<nat>, secs: seq<Section>)
    requires forall k :: 0 <= k < |nb| ==> IsMarkerAt(s, nb[k])
  {
    |secs| == |nb| && forall k :: 0 <= k < |nb| ==> secs[k] == MarkerSection(s, nb[k])
  }

  lemma FromNonBlankMarkers(s: string, ms: seq<nat>)
    requires forall k :: 0 <= k < |ms| ==> IsMarkerAt(s, ms[k])
    ensures MarkerSections(s, NonBlankMarkers(s, ms), FromMarkers(s, ms))
  {
    var nb, secs := NonBlankMarkers(s, ms), FromMarkers(s, ms);
    FromNonBlankCount(s, ms);
    forall k | 0 <= k < |nb| ensures secs[k] == MarkerSection(s, nb[k]) {
      FromNonBlankAt(s, ms, k);
    }
  }

  lemma {:induction false} FromNonBlankCount(s: string, ms: seq<nat>)
    requires forall k :: 0 <= k < |ms| ==> IsMarkerAt(s, ms[k])
    ensures |FromMarkers(s, ms)| == |NonBlankMarkers(s, ms)|
  {
    if ms != [] {
      FromNonBlankCount(s, ms[1..]);
    }
  }

  lemma {:induction false} FromNonBlankAt(s: string, ms: seq<nat>, k: nat)
    requires forall k :: 0 <= k < |ms| ==> IsMarkerAt(s, ms[k])
    requires k < |NonBlankMarkers(s, ms)|
    ensures k < |FromMarkers(s, ms)| && FromMarkers(s, ms)[k] == MarkerSection(s, NonBlankMarkers(s, ms)[k])
  {
    var m, tl := ms[0], ms[1..];
    FromNonBlankCount(s, ms);
    MarkersUnfold(s, ms, m, tl);
    var nb, secs := NonBlankMarkers(s, tl), FromMarkers(s, tl);
    if IsBlank(MarkerName(s, m)) {
      FromNonBlankAt(s, tl, k);
    } else if k > 0 {
      var k1 := k - 1;
      FromNonBlankAt(s, tl, k1);
      ConsAt(m, nb, k, k1);
      ConsAt(MarkerSection(s, m), secs, k, k1);
    }
  }

  /** The first marker of `ms`, then the rest, for both descriptions. */
  lemma MarkersUnfold(s: string, ms: seq<nat>, m: nat, tl: seq<nat>)
    requires forall k :: 0 <= k < |ms| ==> IsMarkerAt(s, ms[k])
    requires ms != [] && m == ms[0] && tl == ms[1..]
    ensures IsMarkerAt(s, m) && forall k :: 0 <= k < |tl| ==> IsMarkerAt(s, tl[k])
    ensures NonBlankMarkers(s, ms) == (if IsBlank(MarkerName(s, m)) then [] else [m]) + NonBlankMarkers(s, tl)
    ensures FromMarkers(s, ms) == (if IsBlank(MarkerName(s, m)) then [] else [MarkerSection(s, m)]) + FromMarkers(s, tl)
  {
  }

  /**
   * After the optional "General" section, the sections are exactly the
   * markers whose names are not blank, in order, each with its stripped
   * name and its own body; a marker whose name is blank gives no section,
   * and its body is the body of none (bodies of distinct markers are
   * distinct stretches of the text).
   */
  lemma SectionsFromMarkers(s: string)
    ensures var off := if IsBlank(Preamble(s)) then 0 else 1;
            && off <= |Parse(s)|
            && MarkerSections(s, NonBlankMarkers(s, MarkersFrom(s, 0)), Parse(s)[off..])
  {
    var ms := MarkersFrom(s, 0);
    var head := if IsBlank(Preamble(s)) then [] else [Section(GeneralName, Preamble(s))];
    var f := FromMarkers(s, ms);
    ParseMatchesReference(s);
    assert Parse(s) == head + f;
    assert (head + f)[|head|..] == f;
    FromNonBlankMarkers(s, ms);
  }
}
