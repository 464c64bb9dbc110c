/**
 * The search engine behind `/api/search` (`handle_search_api` without the
 * JSON encoding): filtering sections by a case-insensitive substring, the
 * highlighted snippet, the summary and the error count of each result.
 */
module Search {
  import opened Opt
  import opened Text
  import opened Parser

  // ---------------------------------------------------------------------
  // Highlighting: re.sub of the escaped, case-insensitive term
  // ---------------------------------------------------------------------

  /** A snippet character that is kept as it is, or one highlighted occurrence of the term. */
  datatype Piece = Plain(c: char) | Hit(text: string)

  /** The characters of the pieces, marks removed. */
  function Plaintext(ps: seq<Piece>): string {
    if ps == [] then ""
    else (match ps[0] case Plain(c) => [c] case Hit(h) => h) + Plaintext(ps[1..])
  }

  /** The pieces as HTML: each occurrence wrapped in `<mark>` and `</mark>`. */
  function RenderPieces(ps: seq<Piece>): string {
    if ps == [] then ""
    else (match ps[0] case Plain(c) => [c] case Hit(h) => "<mark>" + h + "</mark>") + RenderPieces(ps[1..])
  }

  predicate HasHit(ps: seq<Piece>) {
    exists k :: 0 <= k < |ps| && ps[k].Hit?
  }

  /**
   * `re.compile(re.escape(t), re.IGNORECASE).sub(...)` scanning `s` left to
   * right: an occurrence of `t` at the current position, compared without
   * case, becomes a hit and the scan resumes after it.
   */
  function MarkPieces(s: string, t: string): (ps: seq<Piece>)
    requires t != ""
    ensures Plaintext(ps) == s
    ensures forall k :: 0 <= k < |ps| && ps[k].Hit? ==> Lower(ps[k].text) == Lower(t)
    decreases |s|
  {
    if s == [] then []
    else if HitAt(s, t, 0) then
      var h, r := s[..|t|], s[|t|..];
      var rest := MarkPieces(r, t);
      assert h == s[0..|t|];
      PiecesCons(Hit(h), rest, t);
      assert s == h + r;
      [Hit(h)] + rest
    else
      var r := s[1..];
      var rest := MarkPieces(r, t);
      PiecesCons(Plain(s[0]), rest, t);
      assert s == [s[0]] + r;
      [Plain(s[0])] + rest
  }

  /** One more piece in front: its text comes first, and hits still match the term. */
  lemma PiecesCons(p: Piece, rest: seq<Piece>, t: string)
    requires p.Hit? ==> Lower(p.text) == Lower(t)
    requires forall k :: 0 <= k < |rest| && rest[k].Hit? ==> Lower(rest[k].text) == Lower(t)
    ensures Plaintext([p] + rest) == (match p case Plain(c) => [c] case Hit(h) => h) + Plaintext(rest)
    ensures forall k :: 0 <= k < |[p] + rest| && ([p] + rest)[k].Hit? ==> Lower(([p] + rest)[k].text) == Lower(t)
  {
    var ps := [p] + rest;
    assert ps[0] == p && ps[1..] == rest;
    forall k | 0 < k < |ps| ensures ps[k] == rest[k - 1] {
    }
  }

  /** The term occurs at `o` in `s`, compared without case. */
  predicate HitAt(s: string, t: string, o: nat) {
    o + |t| <= |s| && Lower(s[o..o + |t|]) == Lower(t)
  }

  /** Where piece `k` starts in the plain text. */
  function PieceStart(ps: seq<Piece>, k: nat): nat
    requires k <= |ps|
  {
    |Plaintext(ps[..k])|
  }

  /**
   * A hit is the occurrence of the term at its offset; a plain character is
   * the character at its offset, and no occurrence starts there.
   */
  predicate PieceFits(s: string, t: string, p: Piece, o: nat) {
    match p
    case Hit(h) => o + |t| <= |s| && h == s[o..o + |t|] && HitAt(s, t, o)
    case Plain(c) => o < |s| && c == s[o] && !HitAt(s, t, o)
  }

  lemma PieceStartCons(p: Piece, rest: seq<Piece>, k: nat)
    requires 1 <= k <= |rest| + 1
    ensures PieceStart([p] + rest, k) == |Plaintext([p])| + PieceStart(rest, k - 1)
  {
    assert ([p] + rest)[..k] == [p] + rest[..k - 1];
    assert ([p] + rest[..k - 1])[1..] == rest[..k - 1];
  }

  lemma ShiftFits(s: string, n: nat, t: string, p: Piece, o: nat)
    requires n <= |s| && PieceFits(s[n..], t, p, o)
    ensures PieceFits(s, t, p, n + o)
  {
    if n + o + |t| <= |s| {
      assert s[n..][o..o + |t|] == s[n + o..n + o + |t|];
    }
  }

  /** How far the scan moves past the first piece. */
  function MarkStep(s: string, t: string): nat {
    if HitAt(s, t, 0) then |t| else 1
  }

  /** The first piece of the highlight fits offset 0, and the rest is the highlight after it. */
  lemma MarkPiecesHead(s: string, t: string)
    requires t != "" && s != []
    ensures var ps := MarkPieces(s, t);
            && MarkStep(s, t) <= |s|
            && ps == [ps[0]] + MarkPieces(s[MarkStep(s, t)..], t)
            && |Plaintext([ps[0]])| == MarkStep(s, t)
            && PieceFits(s, t, ps[0], 0)
  {
    if |t| <= |s| {
      assert s[0..|t|] == s[..|t|];
    }
  }

  lemma FitsAfterHead(s: string, t: string, n: nat, ps: seq<Piece>, rest: seq<Piece>, k: nat)
    requires n <= |s| && |ps| >= 1 && ps == [ps[0]] + rest && |Plaintext([ps[0]])| == n
    requires 1 <= k <= |rest|
    requires PieceFits(s[n..], t, rest[k - 1], PieceStart(rest, k - 1))
    ensures PieceFits(s, t, ps[k], PieceStart(ps, k))
  {
    PieceStartCons(ps[0], rest, k);
    ShiftFits(s, n, t, rest[k - 1], PieceStart(rest, k - 1));
  }

  /** Piece `k` of the highlight fits its offset. */
  lemma {:induction false} MarkPiecesAt(s: string, t: string, k: nat)
    requires t != "" && k < |MarkPieces(s, t)|
    ensures PieceFits(s, t, MarkPieces(s, t)[k], PieceStart(MarkPieces(s, t), k))
    decreases |s|
  {
    var ps := MarkPieces(s, t);
    assert s != [];
    MarkPiecesHead(s, t);
    if k == 0 {
      assert ps[..0] == [];
      assert PieceStart(ps, 0) == 0;
    } else {
      var n := MarkStep(s, t);
      var rest := MarkPieces(s[n..], t);
      MarkPiecesAt(s[n..], t, k - 1);
      FitsAfterHead(s, t, n, ps, rest, k);
    }
  }

  /**
   * The highlight is exactly the left-to-right scan: every marked stretch is
   * an occurrence of the term, and no occurrence starts at a character left
   * unmarked, so every occurrence not overlapping an earlier one is marked.
   */
  lemma MarkPiecesExact(s: string, t: string)
    requires t != ""
    ensures var ps := MarkPieces(s, t);
            forall k :: 0 <= k < |ps| ==> PieceFits(s, t, ps[k], PieceStart(ps, k))
  {
    var ps := MarkPieces(s, t);
    forall k | 0 <= k < |ps|
      ensures PieceFits(s, t, ps[k], PieceStart(ps, k))
    {
      MarkPiecesAt(s, t, k);
    }
  }

  function Highlight(s: string, t: string): string
    requires t != ""
  {
    RenderPieces(MarkPieces(s, t))
  }

  /** Whenever `s` holds the term (without case), the highlight marks at least one occurrence. */
  lemma {:induction false} MarkPiecesHit(s: string, t: string, i: nat)
    requires t != ""
    requires OccursAt(Lower(s), Lower(t), i)
    ensures HasHit(MarkPieces(s, t))
    decreases |s|
  {
    var ps := MarkPieces(s, t);
    MarkPiecesHead(s, t);
    if i == 0 {
      OccursHead(s, t);
      assert ps[0].Hit?;
    } else if HitAt(s, t, 0) {
      assert ps[0].Hit?;
    } else {
      var s1, i1 := s[1..], i - 1;
      OccursTail(s, t, i, s1, i1);
      MarkPiecesHit(s1, t, i1);
      HasHitCons(ps, MarkPieces(s1, t));
    }
  }

  lemma OccursHead(s: string, t: string)
    requires OccursAt(Lower(s), Lower(t), 0)
    ensures HitAt(s, t, 0)
  {
    LowerSlice(s, 0, |t|);
  }

  lemma OccursTail(s: string, t: string, i: nat, s1: string, i1: nat)
    requires 0 < i && s != [] && s1 == s[1..] && i1 == i - 1
    requires OccursAt(Lower(s), Lower(t), i)
    ensures OccursAt(Lower(s1), Lower(t), i1)
  {
    LowerSlice(s, 1, |s|);
    var L := Lower(s);
    assert Lower(s1) == L[1..];
    assert L[1..][i1..i1 + |t|] == L[i..i + |t|];
  }

  lemma HasHitCons(ps: seq<Piece>, rest: seq<Piece>)
    requires |ps| >= 1 && ps == [ps[0]] + rest && HasHit(rest)
    ensures HasHit(ps)
  {
    var k :| 0 <= k < |rest| && rest[k].Hit?;
    var k1 := k + 1;
    assert ps[k1] == rest[k];
  }

  // ---------------------------------------------------------------------
  // Snippet: the first line holding the term
  // ---------------------------------------------------------------------

  /** The first line from index `i` whose lower-case form holds `term`. */
  function FirstLineFrom(lines: seq<string>, term: string, i: nat): (r: Option<nat>)
    requires i <= |lines|
    ensures r.Some? ==> i <= r.value < |lines| && Contains(Lower(lines[r.value]), term)
    ensures r.Some? ==> forall j :: i <= j < r.value ==> !Contains(Lower(lines[j]), term)
    ensures r.None? ==> forall j :: i <= j < |lines| ==> !Contains(Lower(lines[j]), term)
    decreases |lines| - i
  {
    if i == |lines| then None
    else if Contains(Lower(lines[i]), term) then Some(i)
    else FirstLineFrom(lines, term, i + 1)
  }

  /** The pieces of the snippet: the first matching line, stripped, with the term marked. */
  function SnippetPieces(content: string, term: string): seq<Piece> {
    if term == "" then []
    else
      var lines := Lines(content);
      match FirstLineFrom(lines, term, 0)
      case None => []
      case Some(k) => MarkPieces(Strip(lines[k]), term)
  }

  function Snippet(content: string, term: string): string {
    RenderPieces(SnippetPieces(content, term))
  }

  /** The loop over `content.split('\n')` with its `break` at the first matching line. */
  method FindSnippet(content: string, term: string) returns (snippet: string)
    requires term != ""
    ensures snippet == Snippet(content, term)
  {
    snippet := "";
    var lines := Lines(content);
    var k := 0;
    while k < |lines|
      invariant k <= |lines|
      invariant forall j :: 0 <= j < k ==> !Contains(Lower(lines[j]), term)
      invariant snippet == ""
    {
      if Contains(Lower(lines[k]), term) {
        assert FirstLineFrom(lines, term, 0) == Some(k);
        snippet := Highlight(Strip(lines[k]), term);
        break;
      }
      k := k + 1;
    }
    if k == |lines| {
      assert FirstLineFrom(lines, term, 0) == None;
    }
  }

  /** Every character of a blank stretch `s[a..b]` is whitespace. */
  lemma BlankStretch(s: string, a: nat, b: nat)
    requires a <= b <= |s| && IsBlank(s[a..b])
    ensures forall j :: a <= j < b ==> IsSpace(s[j])
  {
    forall j | a <= j < b ensures IsSpace(s[j]) {
      assert s[a..b][j - a] == s[j];
    }
  }

  /** strip() keeps `line[n..e]`; everything before `n` and from `e` on is whitespace. */
  lemma StripWindow(line: string, n: nat, e: nat)
    requires n == LeadingSpaces(line) && e == n + |Strip(line)|
    ensures n <= e <= |line| && Strip(line) == line[n..e]
    ensures forall j :: 0 <= j < n ==> IsSpace(line[j])
    ensures forall j :: e <= j < |line| ==> IsSpace(line[j])
  {
    StripSpec(line);
    assert line[0..n] == line[..n];
    BlankStretch(line, 0, n);
    assert line[e..|line|] == line[e..];
    BlankStretch(line, e, |line|);
  }

  /** A non-whitespace character lies within the part of the line that strip() keeps. */
  lemma NonSpaceWithinStrip(line: string, j: nat, n: nat, e: nat)
    requires j < |line| && !IsSpace(line[j])
    requires n == LeadingSpaces(line) && e == n + |Strip(line)|
    ensures n <= j < e
  {
    StripWindow(line, n, e);
  }

  /**
   * An occurrence, in the lower-cased line, of a term with no whitespace at
   * either end lies within the part of the line that strip() keeps.
   */
  lemma OccurrenceWithinStrip(line: string, term: string, i: nat, n: nat, e: nat)
    requires term != "" && !IsSpace(term[0]) && !IsSpace(term[|term| - 1])
    requires OccursAt(Lower(line), term, i)
    requires n == LeadingSpaces(line) && e == n + |Strip(line)|
    ensures n <= i && i + |term| <= e
  {
    var L := Lower(line);
    var last := i + |term| - 1;
    assert L[i] == term[0] by { assert L[i..i + |term|][0] == L[i]; }
    assert L[last] == term[|term| - 1] by { assert L[i..i + |term|][|term| - 1] == L[last]; }
    LowerAt(line, i);
    LowerAt(line, last);
    LowerCharSpace(line[i]);
    LowerCharSpace(line[last]);
    NonSpaceWithinStrip(line, i, n, e);
    NonSpaceWithinStrip(line, last, n, e);
  }

  /**
   * For a term with no whitespace at either end, an occurrence in a line is
   * also an occurrence in the stripped line.
   */
  lemma ContainsStripped(line: string, term: string)
    requires term != "" && !IsSpace(term[0]) && !IsSpace(term[|term| - 1])
    requires Contains(Lower(line), term)
    ensures Contains(Lower(Strip(line)), term)
  {
    var L := Lower(line);
    var i :| 0 <= i <= |L| - |term| && OccursAt(L, term, i);
    var st := Strip(line);
    var n := LeadingSpaces(line);
    var e := n + |st|;
    OccurrenceWithinStrip(line, term, i, n, e);
    StripWindow(line, n, e);
    LowerSlice(line, n, e);
    var j := i - n;
    OccursInWindow(L, n, e, term, i, j);
    assert OccursAt(Lower(st), term, j);
  }

  /** An occurrence lying inside the window `s[a..b]` is an occurrence in the window. */
  lemma OccursInWindow(s: string, a: nat, b: nat, t: string, i: nat, j: nat)
    requires a <= i && i + |t| <= b <= |s| && j == i - a
    requires OccursAt(s, t, i)
    ensures OccursAt(s[a..b], t, j)
  {
    var w := s[a..b];
    forall k | 0 <= k < |t| ensures w[j + k] == t[k] {
      assert w[j + k] == s[i + k];
      assert s[i..i + |t|][k] == s[i + k];
    }
    assert w[j..j + |t|] == t;
  }

  /** The normalised query is lower-case and has no whitespace at either end. */
  lemma TermShape(q: string)
    ensures Lower(Term(q)) == Term(q)
    ensures Term(q) == [] || (!IsSpace(Term(q)[0]) && !IsSpace(Term(q)[|Term(q)| - 1]))
  {
    LowerIdempotent(q);
    StripLowerIsLower(Lower(q));
  }

  /**
   * The snippet of a non-blank query: when some line holds the term, the
   * snippet is drawn from the first such line, stripped — the marks removed
   * give that line back — and marks at least one occurrence; when no single
   * line holds it (the term spans a newline) the snippet is empty.
   */
  lemma SnippetSpec(content: string, q: string)
    requires Term(q) != ""
    ensures var r := FirstLineFrom(Lines(content), Term(q), 0);
            && (r.None? ==> Snippet(content, Term(q)) == "")
            && (r.Some? ==>
                  && Plaintext(SnippetPieces(content, Term(q))) == Strip(Lines(content)[r.value])
                  && HasHit(SnippetPieces(content, Term(q))))
  {
    var term := Term(q);
    var lines := Lines(content);
    var r := FirstLineFrom(lines, term, 0);
    if r.Some? {
      TermShape(q);
      var st := Strip(lines[r.value]);
      ContainsStripped(lines[r.value], term);
      var i :| 0 <= i <= |Lower(st)| - |term| && OccursAt(Lower(st), term, i);
      MarkPiecesHit(st, term, i);
    }
  }

  /** Stripping a lower-cased string keeps it lower-cased. */
  lemma StripLowerIsLower(s: string)
    requires Lower(s) == s
    ensures Lower(Strip(s)) == Strip(s)
  {
    StripSpec(s);
    LowerSlice(s, LeadingSpaces(s), LeadingSpaces(s) + |Strip(s)|);
  }

  // ---------------------------------------------------------------------
  // Summary
  // ---------------------------------------------------------------------

  /** The summary keeps a line that is not blank and whose unstripped text does not start with `#`. */
  predicate SummaryKeeps(l: string) {
    Strip(l) != "" && !StartsWith(l, "#")
  }

  /** `[l.strip() for l in lines if l.strip() and not l.startswith('#')]`. */
  function SummaryLines(lines: seq<string>): (r: seq<string>)
    ensures |r| <= |lines|
    ensures forall k :: 0 <= k < |r| ==> r[k] != "" && Strip(r[k]) == r[k]
  {
    if lines == [] then []
    else
      var l := lines[0];
      StripIdempotent(l);
      (if SummaryKeeps(l) then [Strip(l)] else []) + SummaryLines(lines[1..])
  }

  /** The indices from `i` of the lines the summary keeps, in order. */
  function KeptFrom(lines: seq<string>, i: nat): (ix: seq<nat>)
    requires i <= |lines|
    ensures forall k :: 0 <= k < |ix| ==> i <= ix[k] < |lines|
    decreases |lines| - i
  {
    if i == |lines| then []
    else (if SummaryKeeps(lines[i]) then [i] else []) + KeptFrom(lines, i + 1)
  }

  /** Line `i`, then the lines from `i1` (that is `i + 1`) on. */
  lemma KeptUnfold(lines: seq<string>, i: nat, i1: nat)
    requires i < |lines| && i1 == i + 1
    ensures KeptFrom(lines, i) == (if SummaryKeeps(lines[i]) then [i] else []) + KeptFrom(lines, i1)
    ensures SummaryLines(lines[i..])
            == (if SummaryKeeps(lines[i]) then [Strip(lines[i])] else []) + SummaryLines(lines[i1..])
  {
    assert lines[i..][1..] == lines[i1..];
  }

  /** The kept indices increase, and they are exactly those of the lines the summary keeps. */
  lemma {:induction false} KeptFromExact(lines: seq<string>, i: nat)
    requires i <= |lines|
    ensures forall k, m :: 0 <= k < m < |KeptFrom(lines, i)| ==> KeptFrom(lines, i)[k] < KeptFrom(lines, i)[m]
    ensures forall j :: i <= j < |lines| ==> (j in KeptFrom(lines, i) <==> SummaryKeeps(lines[j]))
    decreases |lines| - i
  {
    if i < |lines| {
      var i1 := i + 1;
      KeptFromExact(lines, i1);
      KeptUnfold(lines, i, i1);
      var head: seq<nat> := if SummaryKeeps(lines[i]) then [i] else [];
      var tail := KeptFrom(lines, i1);
      IncreasingCons(head, tail, i);
      KeptMembersStep(lines, i, i1, head, tail);
    }
  }

  /** Membership from `i`: line `i` through `head`, the later ones through `tail`. */
  lemma KeptMembersStep(lines: seq<string>, i: nat, i1: nat, head: seq<nat>, tail: seq<nat>)
    requires i < |lines| && i1 == i + 1
    requires head == if SummaryKeeps(lines[i]) then [i] else []
    requires forall k :: 0 <= k < |tail| ==> i1 <= tail[k]
    requires forall j :: i1 <= j < |lines| ==> (j in tail <==> SummaryKeeps(lines[j]))
    ensures forall j :: i <= j < |lines| ==> (j in head + tail <==> SummaryKeeps(lines[j]))
  {
    assert i !in tail;
    forall j | i <= j < |lines| ensures (j in head + tail <==> SummaryKeeps(lines[j])) {
      assert j in head + tail <==> j in head || j in tail;
    }
  }

  /** The summary lines from `i` are the kept lines from `i`, stripped, in order. */
  lemma {:induction false} SummaryLinesFrom(lines: seq<string>, i: nat)
    requires i <= |lines|
    ensures |SummaryLines(lines[i..])| == |KeptFrom(lines, i)|
    ensures forall k :: 0 <= k < |KeptFrom(lines, i)| ==>
              SummaryLines(lines[i..])[k] == Strip(lines[KeptFrom(lines, i)[k]])
    decreases |lines| - i
  {
    if i < |lines| {
      var i1 := i + 1;
      SummaryLinesFrom(lines, i1);
      KeptUnfold(lines, i, i1);
      var head: seq<nat> := if SummaryKeeps(lines[i]) then [i] else [];
      var rh: seq<string> := if SummaryKeeps(lines[i]) then [Strip(lines[i])] else [];
      StrippedCons(lines, rh, SummaryLines(lines[i1..]), head, KeptFrom(lines, i1));
    }
  }

  /** Pointwise stripping of the indexed lines is kept by concatenation. */
  lemma StrippedCons(lines: seq<string>, rh: seq<string>, rt: seq<string>, head: seq<nat>, tail: seq<nat>)
    requires |rh| == |head| && |rt| == |tail|
    requires forall k :: 0 <= k < |head| ==> head[k] < |lines| && rh[k] == Strip(lines[head[k]])
    requires forall k :: 0 <= k < |tail| ==> tail[k] < |lines| && rt[k] == Strip(lines[tail[k]])
    ensures forall k :: 0 <= k < |rh + rt| ==> (head + tail)[k] < |lines| && (rh + rt)[k] == Strip(lines[(head + tail)[k]])
  {
    forall k | 0 <= k < |rh + rt| ensures (head + tail)[k] < |lines| && (rh + rt)[k] == Strip(lines[(head + tail)[k]]) {
      if k >= |rh| {
        assert (rh + rt)[k] == rt[k - |rh|];
        assert (head + tail)[k] == tail[k - |head|];
      }
    }
  }

  /**
   * Exactly the lines that are not blank and do not start with `#` before
   * stripping are kept, stripped and in their order: `"  # x"` gives `"# x"`,
   * while `"#x"` is dropped.
   */
  lemma SummaryLinesKeeps(lines: seq<string>)
    ensures var r, ix := SummaryLines(lines), KeptFrom(lines, 0);
            && |r| == |ix|
            && (forall k :: 0 <= k < |r| ==> r[k] == Strip(lines[ix[k]]))
            && (forall k, l :: 0 <= k < l < |ix| ==> ix[k] < ix[l])
            && (forall j :: 0 <= j < |lines| ==> (j in ix <==> SummaryKeeps(lines[j])))
  {
    SummaryLinesFrom(lines, 0);
    assert lines[0..] == lines;
    KeptFromExact(lines, 0);
  }

  /** Python's slice `s[:n]`. */
  function Take<T>(s: seq<T>, n: nat): seq<T> {
    if |s| <= n then s else s[..n]
  }

  /** The text the summary is cut from: the qualifying lines among the first five. */
  function SummarySource(content: string): string {
    Join(SummaryLines(Take(Lines(content), 5)), " ")
  }

  /** `' '.join(summary_lines)[:100]`. */
  function Summary(content: string): string {
    Take(SummarySource(content), 100)
  }

  /**
   * The summary is a prefix of the joined lines, at most 100 characters,
   * cut to exactly 100 when the joined text is longer; it is made of at most
   * five non-blank, stripped lines.
   */
  lemma SummarySpec(content: string)
    ensures |Summary(content)| <= 100
    ensures Summary(content) == SummarySource(content)[..|Summary(content)|]
    ensures |SummarySource(content)| > 100 ==> |Summary(content)| == 100
    ensures |SummarySource(content)| <= 100 ==> Summary(content) == SummarySource(content)
    ensures |SummaryLines(Take(Lines(content), 5))| <= 5
  {
  }

  /** A `#` after leading blanks is kept, a `#` at column 0 is dropped. */
  lemma SummaryHashExample()
    ensures SummaryLines(["  # x", "#x"]) == ["# x"]
  {
    var a, b := "  # x", "#x";
    assert LeadingSpaces(a) == 2 by {
      assert LeadingSpaces(a[2..]) == 0;
      assert LeadingSpaces(a[1..]) == 1 + LeadingSpaces(a[1..][1..]) by { assert a[1..][1..] == a[2..]; }
    }
    assert TrimRight(a[2..]) == a[2..];
    assert Strip(a) == "# x";
    assert StartsWith(b, "#");
    assert [a, b][1..] == [b];
    assert [b][1..] == [];
  }

  // ---------------------------------------------------------------------
  // Error count: re.findall(r'- \*\*Error\*\*:|^- \*\*', body, re.MULTILINE)
  // ---------------------------------------------------------------------

  const ErrorLead: string := "- **Error**:"
  const BoldLead: string := "- **"

  predicate AtLineStart(s: string, i: nat) {
    i == 0 || (i <= |s| && s[i - 1] == '\n')
  }

  /** The pattern matches at `i`: the first alternative anywhere, the second at a line start. */
  predicate MatchAt(s: string, i: nat) {
    OccursAt(s, ErrorLead, i) || (AtLineStart(s, i) && OccursAt(s, BoldLead, i))
  }

  /**
   * `findall` from index `i`: try the alternatives in order at each
   * position; after a match resume at its end, otherwise one further on.
   */
  function FindAllFrom(s: string, i: nat): nat
    requires i <= |s|
    decreases |s| - i
  {
    if i == |s| then 0
    else if OccursAt(s, ErrorLead, i) then 1 + FindAllFrom(s, i + |ErrorLead|)
    else if AtLineStart(s, i) && OccursAt(s, BoldLead, i) then 1 + FindAllFrom(s, i + |BoldLead|)
    else FindAllFrom(s, i + 1)
  }

  function ErrorCount(body: string): nat {
    FindAllFrom(body, 0)
  }

  /** The number of positions from `i` at which the pattern matches. */
  function MatchPositionsFrom(s: string, i: nat): nat
    requires i <= |s|
    decreases |s| - i
  {
    if i == |s| then 0 else (if MatchAt(s, i) then 1 else 0) + MatchPositionsFrom(s, i + 1)
  }

  /** Both alternatives begin with '-'. */
  lemma MatchStartsWithDash(s: string, i: nat)
    ensures MatchAt(s, i) ==> s[i] == '-'
  {
    assert OccursAt(s, ErrorLead, i) ==> s[i..i + |ErrorLead|][0] == s[i];
    assert OccursAt(s, BoldLead, i) ==> s[i..i + |BoldLead|][0] == s[i];
  }

  /** Positions with no '-' start no match. */
  lemma {:induction false} SkipNoDash(s: string, i: nat, j: nat)
    requires i <= j <= |s|
    requires forall k :: i <= k < j ==> s[k] != '-'
    ensures MatchPositionsFrom(s, i) == MatchPositionsFrom(s, j)
    decreases j - i
  {
    if i < j {
      MatchStartsWithDash(s, i);
      SkipNoDash(s, i + 1, j);
    }
  }

  /**
   * Matches never overlap — a '-' begins both alternatives and appears
   * nowhere else in them — so the left-to-right scan counts exactly the
   * positions at which the pattern matches.
   */
  lemma {:induction false} FindAllCountsPositions(s: string, i: nat)
    requires i <= |s|
    ensures FindAllFrom(s, i) == MatchPositionsFrom(s, i)
    decreases |s| - i
  {
    if i < |s| {
      if OccursAt(s, ErrorLead, i) {
        var w := s[i..i + |ErrorLead|];
        forall k | i + 1 <= k < i + |ErrorLead| ensures s[k] != '-' {
          assert s[k] == w[k - i];
        }
        SkipNoDash(s, i + 1, i + |ErrorLead|);
        FindAllCountsPositions(s, i + |ErrorLead|);
      } else if AtLineStart(s, i) && OccursAt(s, BoldLead, i) {
        var w := s[i..i + |BoldLead|];
        forall k | i + 1 <= k < i + |BoldLead| ensures s[k] != '-' {
          assert s[k] == w[k - i];
        }
        SkipNoDash(s, i + 1, i + |BoldLead|);
        FindAllCountsPositions(s, i + |BoldLead|);
      } else {
        FindAllCountsPositions(s, i + 1);
      }
    }
  }

  lemma ErrorCountIsMatchPositions(body: string)
    ensures ErrorCount(body) == MatchPositionsFrom(body, 0)
  {
    FindAllCountsPositions(body, 0);
  }

  /** Two `- **Error**:` bullets and a plain bullet count 2: the plain bullet is not bold-led. */
  lemma ErrorCountExample()
    ensures ErrorCount("- **Error**: A\n" + "- **Error**: B\n" + "- plain bullet") == 2
  {
    var first, second, third := ErrorLead + " A\n", ErrorLead + " B\n", "- plain bullet";
    assert "- **Error**: A\n" == first && "- **Error**: B\n" == second;
    var f := first + second + third;
    assert |f| == 44;
    assert f[0..15] == first;
    assert f[15..30] == second;
    assert f[30..44] == third;
    ExampleThirdLine(f);
    ExampleSecondLine(f);
    ExampleFirstLine(f);
  }

  /** The third line, `- plain bullet`, holds no match. */
  lemma ExampleThirdLine(f: string)
    requires |f| == 44 && f[30..44] == "- plain bullet"
    ensures FindAllFrom(f, 30) == 0
  {
    var line := f[30..44];
    forall k | 30 <= k < 44
      ensures f[k] == line[k - 30]
    {
    }
    FindAllPlain(f, 43, 44);
    FindAllPlain(f, 42, 43);
    FindAllPlain(f, 41, 42);
    FindAllPlain(f, 40, 41);
    FindAllPlain(f, 39, 40);
    FindAllPlain(f, 38, 39);
    FindAllPlain(f, 37, 38);
    FindAllPlain(f, 36, 37);
    FindAllPlain(f, 35, 36);
    FindAllPlain(f, 34, 35);
    FindAllPlain(f, 33, 34);
    FindAllPlain(f, 32, 33);
    FindAllPlain(f, 31, 32);
    NotOccursAt(f, ErrorLead, 30, 32);
    NotOccursAt(f, BoldLead, 30, 32);
    FindAllNoMatch(f, 30, 31);
  }

  /** The second line adds one match: `- **Error**:` at 15, then ` B\n`. */
  lemma ExampleSecondLine(f: string)
    requires |f| == 44 && FindAllFrom(f, 30) == 0
    requires f[15..30] == ErrorLead + " B\n"
    ensures FindAllFrom(f, 15) == 1
  {
    ErrorLineAt(f, 15, " B\n");
    FindAllPlain(f, 29, 30);
    FindAllPlain(f, 28, 29);
    FindAllPlain(f, 27, 28);
    FindAllError(f, 15, 27);
  }

  /** The first line adds the other: `- **Error**:` at 0, then ` A\n`. */
  lemma ExampleFirstLine(f: string)
    requires |f| == 44 && FindAllFrom(f, 15) == 1
    requires f[0..15] == ErrorLead + " A\n"
    ensures FindAllFrom(f, 0) == 2
  {
    ErrorLineAt(f, 0, " A\n");
    FindAllPlain(f, 14, 15);
    FindAllPlain(f, 13, 14);
    FindAllPlain(f, 12, 13);
    FindAllError(f, 0, 12);
  }

  /** A line holding `- **Error**:` and then `tail` at `i`. */
  lemma ErrorLineAt(s: string, i: nat, tail: string)
    requires i + |ErrorLead| + |tail| <= |s|
    requires s[i..i + |ErrorLead| + |tail|] == ErrorLead + tail
    ensures OccursAt(s, ErrorLead, i)
    ensures forall k :: 0 <= k < |tail| ==> s[i + |ErrorLead| + k] == tail[k]
  {
    var line := s[i..i + |ErrorLead| + |tail|];
    assert s[i..i + |ErrorLead|] == line[..|ErrorLead|];
    forall k | 0 <= k < |tail|
      ensures s[i + |ErrorLead| + k] == tail[k]
    {
      assert line[|ErrorLead| + k] == tail[k];
    }
  }

  /** No match starts at a character other than '-'. */
  lemma FindAllPlain(s: string, i: nat, i1: nat)
    requires i < |s| && i1 == i + 1 && s[i] != '-'
    ensures FindAllFrom(s, i) == FindAllFrom(s, i1)
  {
    NotOccursAt(s, ErrorLead, i, i);
    NotOccursAt(s, BoldLead, i, i);
  }

  lemma FindAllNoMatch(s: string, i: nat, i1: nat)
    requires i < |s| && i1 == i + 1 && !OccursAt(s, ErrorLead, i) && !OccursAt(s, BoldLead, i)
    ensures FindAllFrom(s, i) == FindAllFrom(s, i1)
  {
  }

  lemma FindAllError(s: string, i: nat, j: nat)
    requires OccursAt(s, ErrorLead, i) && j == i + |ErrorLead|
    ensures FindAllFrom(s, i) == 1 + FindAllFrom(s, j)
  {
  }

  /** A character that differs from `t`'s rules out an occurrence of `t` at `i`. */
  lemma NotOccursAt(s: string, t: string, i: nat, k: nat)
    requires i <= k < i + |t| && k < |s| && s[k] != t[k - i]
    ensures !OccursAt(s, t, i)
  {
    if i + |t| <= |s| {
      assert s[i..i + |t|][k - i] == s[k];
    }
  }

  // ---------------------------------------------------------------------
  // Results
  // ---------------------------------------------------------------------

  /** One entry of the JSON `results` list. */
  datatype SearchResult = SearchResult(
    app: string, slug: string, summary: string, snippet: string, errors: nat, matched: bool)

  /** The JSON object sent back: the results, their number and the normalised query. */
  datatype SearchResponse = SearchResponse(results: seq<SearchResult>, count: nat, query: string)

  /** The public identifier of the section at `idx`: `f'app{idx}'`. */
  function Slug(idx: nat): string {
    "app" + NatToString(idx)
  }

  /** Distinct positions have distinct slugs, so a slug names one section. */
  lemma SlugInjective(i: nat, j: nat)
    requires Slug(i) == Slug(j)
    ensures i == j
  {
    assert NatToString(i) == Slug(i)[3..];
    assert NatToString(j) == Slug(j)[3..];
    NatToStringInjective(i, j);
  }

  /** `query.lower().strip()`. */
  function Term(q: string): string {
    Strip(Lower(q))
  }

  predicate Selected(term: string, sec: Section) {
    term == "" || Contains(Lower(sec.body), term)
  }

  function ResultFor(term: string, idx: nat, sec: Section): SearchResult {
    SearchResult(sec.name, Slug(idx), Summary(sec.body), Snippet(sec.body, term), ErrorCount(sec.body), term != "")
  }

  function ResultsFrom(term: string, sections: seq<Section>, i: nat): seq<SearchResult>
    requires i <= |sections|
    decreases |sections| - i
  {
    if i == |sections| then []
    else
      (if Selected(term, sections[i]) then [ResultFor(term, i, sections[i])] else [])
      + ResultsFrom(term, sections, i + 1)
  }

  function SearchResponseFor(q: string, sections: seq<Section>): SearchResponse {
    var rs := ResultsFrom(Term(q), sections, 0);
    SearchResponse(rs, |rs|, Term(q))
  }

  /** The loop of `handle_search_api` over `enumerate(sections)`. */
  method HandleSearch(q: string, sections: seq<Section>) returns (resp: SearchResponse)
    ensures resp == SearchResponseFor(q, sections)
  {
    var term := Strip(Lower(q));
    var results: seq<SearchResult> := [];
    for idx := 0 to |sections|
      invariant results + ResultsFrom(term, sections, idx) == ResultsFrom(term, sections, 0)
    {
      var sec := sections[idx];
      var idx1 := idx + 1;
      if term != "" && !Contains(Lower(sec.body), term) {
        ResultsSkipped(term, sections, idx, idx1, results);
        continue;
      }
      var snippet := "";
      if term != "" {
        snippet := FindSnippet(sec.body, term);
      }
      var lines := Lines(sec.body);
      var summary := Take(Join(SummaryLines(Take(lines, 5)), " "), 100);
      var errors := ErrorCount(sec.body);
      var entry := SearchResult(sec.name, Slug(idx), summary, snippet, errors, term != "");
      assert entry == ResultFor(term, idx, sec);
      ResultsKept(term, sections, idx, idx1, results, entry);
      results := results + [entry];
    }
    resp := SearchResponse(results, |results|, term);
  }

  /** A section the term does not select adds no result. */
  lemma ResultsSkipped(term: string, sections: seq<Section>, idx: nat, idx1: nat, results: seq<SearchResult>)
    requires idx < |sections| && idx1 == idx + 1 && !Selected(term, sections[idx])
    requires results + ResultsFrom(term, sections, idx) == ResultsFrom(term, sections, 0)
    ensures results + ResultsFrom(term, sections, idx1) == ResultsFrom(term, sections, 0)
  {
    SelectedUnfold(term, sections, idx, idx1);
  }

  /** A section the term selects adds its result. */
  lemma ResultsKept(term: string, sections: seq<Section>, idx: nat, idx1: nat, results: seq<SearchResult>,
                    entry: SearchResult)
    requires idx < |sections| && idx1 == idx + 1 && Selected(term, sections[idx])
    requires entry == ResultFor(term, idx, sections[idx])
    requires results + ResultsFrom(term, sections, idx) == ResultsFrom(term, sections, 0)
    ensures (results + [entry]) + ResultsFrom(term, sections, idx1) == ResultsFrom(term, sections, 0)
  {
    SelectedUnfold(term, sections, idx, idx1);
    Associative(results, [entry], ResultsFrom(term, sections, idx1));
  }

  /** The indices from `i` of the sections a term selects, in order. */
  function SelectedFrom(term: string, sections: seq<Section>, i: nat): (ix: seq<nat>)
    requires i <= |sections|
    ensures forall k :: 0 <= k < |ix| ==> i <= ix[k] < |sections|
    decreases |sections| - i
  {
    if i == |sections| then []
    else (if Selected(term, sections[i]) then [i] else []) + SelectedFrom(term, sections, i + 1)
  }

  /** Section `i`, then the sections from `i1` (that is `i + 1`) on. */
  lemma SelectedUnfold(term: string, sections: seq<Section>, i: nat, i1: nat)
    requires i < |sections| && i1 == i + 1
    ensures SelectedFrom(term, sections, i)
            == (if Selected(term, sections[i]) then [i] else []) + SelectedFrom(term, sections, i1)
    ensures ResultsFrom(term, sections, i)
            == (if Selected(term, sections[i]) then [ResultFor(term, i, sections[i])] else [])
               + ResultsFrom(term, sections, i1)
  {
  }

  /** The selected indices increase, and they are exactly those of the sections the term selects. */
  lemma {:induction false} SelectedFromExact(term: string, sections: seq<Section>, i: nat)
    requires i <= |sections|
    ensures var ix := SelectedFrom(term, sections, i);
            forall k, l :: 0 <= k < l < |ix| ==> ix[k] < ix[l]
    ensures forall j :: i <= j < |sections| ==> (j in SelectedFrom(term, sections, i) <==> Selected(term, sections[j]))
    decreases |sections| - i
  {
    if i < |sections| {
      var i1 := i + 1;
      SelectedFromExact(term, sections, i1);
      SelectedUnfold(term, sections, i, i1);
      var head: seq<nat> := if Selected(term, sections[i]) then [i] else [];
      var tail := SelectedFrom(term, sections, i1);
      IncreasingCons(head, tail, i);
      SelectedMembersStep(term, sections, i, i1, head, tail);
    }
  }

  /** Membership from `i`: section `i` through `head`, the later ones through `tail`. */
  lemma SelectedMembersStep(term: string, sections: seq<Section>, i: nat, i1: nat, head: seq<nat>, tail: seq<nat>)
    requires i < |sections| && i1 == i + 1
    requires head == if Selected(term, sections[i]) then [i] else []
    requires forall k :: 0 <= k < |tail| ==> i1 <= tail[k]
    requires forall j :: i1 <= j < |sections| ==> (j in tail <==> Selected(term, sections[j]))
    ensures forall j :: i <= j < |sections| ==> (j in head + tail <==> Selected(term, sections[j]))
  {
    assert i !in tail;
    forall j | i <= j < |sections| ensures (j in head + tail <==> Selected(term, sections[j])) {
      assert j in head + tail <==> j in head || j in tail;
    }
  }

  lemma {:induction false} ResultsCount(term: string, sections: seq<Section>, i: nat)
    requires i <= |sections|
    ensures |ResultsFrom(term, sections, i)| == |SelectedFrom(term, sections, i)|
    decreases |sections| - i
  {
    if i < |sections| {
      var i1 := i + 1;
      ResultsCount(term, sections, i1);
      SelectedUnfold(term, sections, i, i1);
    }
  }

  /** Result `k` from `i` on is the result of the `k`-th selected section. */
  lemma {:induction false} ResultAt(term: string, sections: seq<Section>, i: nat, k: nat)
    requires i <= |sections| && k < |SelectedFrom(term, sections, i)|
    ensures k < |ResultsFrom(term, sections, i)|
    ensures var j := SelectedFrom(term, sections, i)[k];
            ResultsFrom(term, sections, i)[k] == ResultFor(term, j, sections[j])
    decreases |sections| - i
  {
    var i1 := i + 1;
    SelectedUnfold(term, sections, i, i1);
    if Selected(term, sections[i]) && k == 0 {
    } else {
      var k1 := if Selected(term, sections[i]) then k - 1 else k;
      ResultAt(term, sections, i1, k1);
      ResultAtStep(term, sections, i, i1, k, k1);
    }
  }

  /** Result `k` from `i` is result `k1` from `i1`: one less when section `i` is selected. */
  lemma ResultAtStep(term: string, sections: seq<Section>, i: nat, i1: nat, k: nat, k1: nat)
    requires i < |sections| && i1 == i + 1
    requires k1 == if Selected(term, sections[i]) then k - 1 else k
    requires k1 < |SelectedFrom(term, sections, i1)| && k1 < |ResultsFrom(term, sections, i1)|
    requires SelectedFrom(term, sections, i)
             == (if Selected(term, sections[i]) then [i] else []) + SelectedFrom(term, sections, i1)
    requires ResultsFrom(term, sections, i)
             == (if Selected(term, sections[i]) then [ResultFor(term, i, sections[i])] else [])
                + ResultsFrom(term, sections, i1)
    ensures k < |ResultsFrom(term, sections, i)| && k < |SelectedFrom(term, sections, i)|
    ensures ResultsFrom(term, sections, i)[k] == ResultsFrom(term, sections, i1)[k1]
    ensures SelectedFrom(term, sections, i)[k] == SelectedFrom(term, sections, i1)[k1]
  {
    if Selected(term, sections[i]) {
      ConsAt(ResultFor(term, i, sections[i]), ResultsFrom(term, sections, i1), k, k1);
      ConsAt(i, SelectedFrom(term, sections, i1), k, k1);
    }
  }

  /** The results are those of the selected sections, in section order. */
  lemma ResultsAreSelected(term: string, sections: seq<Section>, i: nat)
    requires i <= |sections|
    ensures var rs := ResultsFrom(term, sections, i);
            var ix := SelectedFrom(term, sections, i);
            |rs| == |ix| && forall k :: 0 <= k < |rs| ==> rs[k] == ResultFor(term, ix[k], sections[ix[k]])
  {
    ResultsCount(term, sections, i);
    var rs := ResultsFrom(term, sections, i);
    var ix := SelectedFrom(term, sections, i);
    forall k | 0 <= k < |rs|
      ensures rs[k] == ResultFor(term, ix[k], sections[ix[k]])
    {
      ResultAt(term, sections, i, k);
    }
  }

  /**
   * A blank query lists every section in order, unmatched and without a
   * snippet; a non-blank one lists exactly the sections whose lower-cased
   * body holds the term, in order, marked as matched and carrying the slug of
   * their original position.
   */
  lemma SearchFilter(q: string, sections: seq<Section>)
    ensures var resp := SearchResponseFor(q, sections);
            var ix := SelectedFrom(Term(q), sections, 0);
            && resp.count == |resp.results| == |ix|
            && resp.query == Term(q)
            && (forall k :: 0 <= k < |ix| ==>
                  && resp.results[k].app == sections[ix[k]].name
                  && resp.results[k].slug == Slug(ix[k])
                  && resp.results[k].matched == (Term(q) != "")
                  && resp.results[k].snippet == Snippet(sections[ix[k]].body, Term(q))
                  && resp.results[k].summary == Summary(sections[ix[k]].body)
                  && resp.results[k].errors == ErrorCount(sections[ix[k]].body))
            && (forall j :: 0 <= j < |sections| ==> (j in ix <==> Term(q) == "" || Contains(Lower(sections[j].body), Term(q))))
  {
    ResultsAreSelected(Term(q), sections, 0);
    SelectedFromExact(Term(q), sections, 0);
  }

  /** With a blank query every section is listed, in order, unmatched and without a snippet. */
  lemma BlankQueryListsAll(q: string, sections: seq<Section>)
    requires Term(q) == ""
    ensures var resp := SearchResponseFor(q, sections);
            && |resp.results| == |sections|
            && forall k :: 0 <= k < |sections| ==>
                 resp.results[k] == SearchResult(sections[k].name, Slug(k), Summary(sections[k].body), "",
                                                 ErrorCount(sections[k].body), false)
  {
    var rs := ResultsFrom("", sections, 0);
    var ix := SelectedFrom("", sections, 0);
    ResultsAreSelected("", sections, 0);
    AllSelected(sections, 0);
    forall k | 0 <= k < |sections|
      ensures rs[k] == SearchResult(sections[k].name, Slug(k), Summary(sections[k].body), "",
                                    ErrorCount(sections[k].body), false)
    {
      assert ix[k] == k;
    }
  }

  /** A blank term selects every section from `i` on. */
  lemma {:induction false} AllSelected(sections: seq<Section>, i: nat)
    requires i <= |sections|
    ensures var ix := SelectedFrom("", sections, i);
            |ix| == |sections| - i && forall k :: 0 <= k < |ix| ==> ix[k] == i + k
    decreases |sections| - i
  {
    if i < |sections| {
      var i1 := i + 1;
      AllSelected(sections, i1);
      SelectedUnfold("", sections, i, i1);
      var later := SelectedFrom("", sections, i1);
      forall k | 0 < k < |later| + 1 ensures ([i] + later)[k] == i + k {
        var k1 := k - 1;
        ConsAt(i, later, k, k1);
      }
    }
  }
}
