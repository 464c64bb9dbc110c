/**
 * The two edits the editor form makes to the store text (the body of the
 * `/editor` branch of `do_POST`): "save full" replaces the text, "add"
 * appends one new section. `AppendRoundTrip` says what the parser then
 * makes of an appended text.
 */
module Store {
  import opened Opt
  import opened Text
  import opened Parser

  /** The text the store holds after the request, or the refusal for a missing name. */
  datatype EditResult = Saved(text: string) | NameRequired

  /** What `f.write(f"\n\n# {app_name}\n\n{app_steps}\n")` appends. */
  function AppendText(name: string, steps: string): string {
    "\n\n# " + name + "\n\n" + steps + "\n"
  }

  /**
   * The "add" branch: both fields are stripped; a blank name leaves the
   * store alone, otherwise the new section is appended to the current text.
   */
  function AddSection(current: string, appName: string, appSteps: string): (r: EditResult)
    ensures r.NameRequired? <==> IsBlank(appName)
    ensures r.Saved? ==> |r.text| > |current| && r.text[..|current|] == current
    ensures r.Saved? ==> r.text == current + AppendText(Strip(appName), Strip(appSteps))
  {
    StripSpec(appName);
    var name := Strip(appName);
    var steps := Strip(appSteps);
    if name != "" then Saved(current + AppendText(name, steps)) else NameRequired
  }

  /**
   * The `/editor` POST: `action` is the first `action` field, if any;
   * `fullContent`, `appName` and `appSteps` are the first values of their
   * fields, `""` when absent.
   */
  function HandleEditorPost(current: string, action: Option<string>, fullContent: string,
                            appName: string, appSteps: string): (r: EditResult)
    ensures action == Some("save_full") ==> r == Saved(fullContent)
    ensures action != Some("save_full") ==> r == AddSection(current, appName, appSteps)
    ensures action != Some("save_full") ==>
              (r.NameRequired? <==> IsBlank(appName))
              && (r.Saved? ==> r.text == current + AppendText(Strip(appName), Strip(appSteps)))
  {
    if action.Some? && action.value == "save_full" then Saved(fullContent)
    else AddSection(current, appName, appSteps)
  }

  // ---------------------------------------------------------------------
  // The parse of an appended text
  // ---------------------------------------------------------------------

  /** The split pieces with `g` added to the last body. */
  function Widen(parts: seq<string>, g: string): seq<string> {
    if parts == [] then [] else parts[..|parts| - 1] + [parts[|parts| - 1] + g]
  }

  /** The sections with `g` added to the last body. */
  function GrowLast(secs: seq<Section>, g: string): seq<Section> {
    if secs == [] then []
    else
      var last := secs[|secs| - 1];
      secs[..|secs| - 1] + [Section(last.name, last.body + g)]
  }

  /**
   * The last body of the split belongs to a section: to "General" when
   * there is no marker, otherwise to the last marker when its name is not
   * blank. Only then does the separator written before a new section end up
   * in an existing section.
   */
  predicate TailKept(raw: string) {
    var parts := SplitParts(raw);
    if |parts| == 1 then !IsBlank(parts[0]) else !IsBlank(parts[|parts| - 2])
  }

  lemma LineEndIs(s: string, i: nat, e: nat)
    requires i <= e <= |s|
    requires e < |s| ==> s[e] == '\n'
    requires forall k :: i <= k < e ==> s[k] != '\n'
    ensures LineEnd(s, i) == e
    decreases e - i
  {
    if i < e {
      LineEndIs(s, i + 1, e);
    }
  }

  /** Text appended after a newline moves no marker of `raw`. */
  lemma MarkerAppend(raw: string, x: string, k: nat)
    requires x != [] && x[0] == '\n' && k < |raw|
    ensures IsMarkerAt(raw + x, k) == IsMarkerAt(raw, k)
  {
    var t := raw + x;
    assert t[|raw|] == '\n';
    if k + 2 < |raw| {
      assert t[k] == raw[k] && t[k + 1] == raw[k + 1] && t[k + 2] == raw[k + 2];
      if k > 0 { assert t[k - 1] == raw[k - 1]; }
    }
  }

  /** ... nor any line end. */
  lemma {:induction false} LineEndAppend(raw: string, x: string, i: nat)
    requires x != [] && x[0] == '\n' && i <= |raw|
    ensures LineEnd(raw + x, i) == LineEnd(raw, i)
    decreases |raw| - i
  {
    var t := raw + x;
    if i == |raw| {
      assert t[i] == '\n';
    } else {
      assert t[i] == raw[i];
      if raw[i] != '\n' {
        LineEndAppend(raw, x, i + 1);
      }
    }
  }

  /** The marker found from `p` in `raw` is found in the longer text too. */
  lemma NextMarkerAppend(raw: string, x: string, p: nat)
    requires x != [] && x[0] == '\n' && p <= |raw|
    ensures forall k :: p <= k < NextMarker(raw, p) ==> !IsMarkerAt(raw + x, k)
    ensures NextMarker(raw, p) < |raw| ==> NextMarker(raw + x, p) == NextMarker(raw, p)
  {
    var m := NextMarker(raw, p);
    forall k | p <= k < m ensures !IsMarkerAt(raw + x, k) {
      MarkerAppend(raw, x, k);
    }
    if m < |raw| {
      MarkerAppend(raw, x, m);
      NextMarkerIs(raw + x, p, m);
    }
  }

  /** A marker inside the appended steps is a marker of the steps on their own. */
  lemma StepsMarker(a: string, steps: string, j: nat)
    requires j < |steps| && IsMarkerAt(a + "\n" + steps + "\n", |a| + 1 + j)
    ensures IsMarkerAt(steps, j)
  {
    var u := a + "\n" + steps + "\n";
    var k := |a| + 1 + j;
    assert u[k] == steps[j];
    assert u[|a| + 1 + |steps|] == '\n';
    if j + 1 < |steps| { assert u[k + 1] == steps[j + 1]; }
    if j + 2 < |steps| { assert u[k + 2] == steps[j + 2]; }
    if j > 0 { assert u[k - 1] == steps[j - 1]; } else { assert u[k - 1] == '\n'; }
  }

  /** The new marker, and the two newlines before it that are no marker. */
  lemma AppendedMarker(raw: string, name: string, steps: string)
    requires name != [] && !IsSpace(name[0])
    ensures var t := raw + AppendText(name, steps);
            && !IsMarkerAt(t, |raw|) && !IsMarkerAt(t, |raw| + 1) && IsMarkerAt(t, |raw| + 2)
  {
    var t := raw + AppendText(name, steps);
    var m := |raw| + 2;
    assert t == raw + "\n\n# " + name + "\n" + "\n" + steps + "\n";
    assert t[|raw|] == '\n' && t[|raw| + 1] == '\n' && t[m] == '#' && t[m + 1] == ' ';
    assert t[m + 2] == name[0];
  }

  /** The new marker's line holds exactly the name. */
  lemma AppendedNameLine(raw: string, name: string, steps: string)
    requires '\n' !in name
    ensures var t := raw + AppendText(name, steps);
            var e := |raw| + 4 + |name|;
            && e < |t| && t[|raw| + 4..e] == name && LineEnd(t, |raw| + 4) == e
  {
    var t := raw + AppendText(name, steps);
    var e := |raw| + 4 + |name|;
    assert t == raw + "\n\n# " + name + "\n" + "\n" + steps + "\n";
    assert t[|raw| + 4..e] == name;
    forall k | |raw| + 4 <= k < e ensures t[k] != '\n' {
      assert t[k] == name[k - (|raw| + 4)];
    }
    assert t[e] == '\n';
    LineEndIs(t, |raw| + 4, e);
  }

  /** After the name line come the steps between newlines, and no marker. */
  lemma AppendedTail(raw: string, name: string, steps: string)
    requires forall j :: !IsMarkerAt(steps, j)
    ensures var t := raw + AppendText(name, steps);
            var e := |raw| + 4 + |name|;
            && e <= |t| && t[e..] == "\n\n" + steps + "\n" && NextMarker(t, e) == |t|
  {
    var t := raw + AppendText(name, steps);
    var e := |raw| + 4 + |name|;
    assert t == (raw + "\n\n# " + name + "\n") + "\n" + steps + "\n";
    var a := t[..e + 1];
    assert a == raw + "\n\n# " + name + "\n";
    assert t == a + "\n" + steps + "\n";
    forall k | e <= k < |t| ensures !IsMarkerAt(t, k) {
      if e + 2 <= k < e + 2 + |steps| {
        if IsMarkerAt(t, k) {
          StepsMarker(a, steps, k - (e + 2));
        }
      } else {
        assert t[k] == '\n';
      }
    }
    NextMarkerIs(t, e, |t|);
  }

  /** The split from `p` when only one marker, at `m`, follows, its line ending at `e`. */
  lemma SplitLastMarker(t: string, p: nat, m: nat, e: nat)
    requires p <= m < |t| && m + 2 <= e <= |t|
    requires NextMarker(t, p) == m && LineEnd(t, m + 2) == e && NextMarker(t, e) == |t|
    ensures SplitFrom(t, p) == [t[p..m], t[m + 2..e], t[e..]]
  {
  }

  lemma GapSlice(raw: string, x: string, p: nat)
    requires p <= |raw| && |x| >= 2 && x[..2] == "\n\n"
    ensures (raw + x)[p..|raw| + 2] == raw[p..] + "\n\n"
  {
    assert (raw + x)[p..|raw| + 2] == (raw + x)[p..|raw|] + (raw + x)[|raw|..|raw| + 2];
    assert (raw + x)[p..|raw|] == raw[p..];
    assert (raw + x)[|raw|..|raw| + 2] == x[..2];
  }

  /** After the last marker of `raw`, the next marker of the appended text is the new one. */
  lemma AppendedNextMarker(raw: string, name: string, steps: string, p: nat)
    requires name != [] && !IsSpace(name[0]) && '\n' !in name
    requires forall j :: !IsMarkerAt(steps, j)
    requires p <= |raw| && NextMarker(raw, p) == |raw|
    ensures NextMarker(raw + AppendText(name, steps), p) == |raw| + 2
  {
    var x := AppendText(name, steps);
    AppendedMarker(raw, name, steps);
    NextMarkerAppend(raw, x, p);
    NextMarkerIs(raw + x, p, |raw| + 2);
  }

  /** The split of the appended text from a point of `raw` after its last marker. */
  lemma SplitAppendedAfterLast(raw: string, name: string, steps: string, p: nat)
    requires name != [] && !IsSpace(name[0]) && '\n' !in name
    requires forall j :: !IsMarkerAt(steps, j)
    requires p <= |raw| && NextMarker(raw, p) == |raw|
    ensures SplitFrom(raw + AppendText(name, steps), p)
            == Widen(SplitFrom(raw, p), "\n\n") + [name, "\n\n" + steps + "\n"]
  {
    AppendedSplitAfterLast(raw, name, steps, p);
    WidenAfterLast(raw, p);
  }

  /** The appended text from a point after `raw`'s last marker splits into the gap, the name and the body. */
  lemma AppendedSplitAfterLast(raw: string, name: string, steps: string, p: nat)
    requires name != [] && !IsSpace(name[0]) && '\n' !in name
    requires forall j :: !IsMarkerAt(steps, j)
    requires p <= |raw| && NextMarker(raw, p) == |raw|
    ensures SplitFrom(raw + AppendText(name, steps), p) == [raw[p..] + "\n\n", name, "\n\n" + steps + "\n"]
  {
    var t := raw + AppendText(name, steps);
    AppendedNextMarker(raw, name, steps, p);
    AppendedNameLine(raw, name, steps);
    AppendedTail(raw, name, steps);
    GapSlice(raw, AppendText(name, steps), p);
    SplitOfTail(t, raw, p, name, "\n\n" + steps + "\n");
  }

  lemma SplitOfTail(t: string, raw: string, p: nat, name: string, tail: string)
    requires p <= |raw| && |raw| + 4 + |name| <= |t|
    requires NextMarker(t, p) == |raw| + 2
    requires LineEnd(t, |raw| + 4) == |raw| + 4 + |name| && NextMarker(t, |raw| + 4 + |name|) == |t|
    requires t[p..|raw| + 2] == raw[p..] + "\n\n"
    requires t[|raw| + 4..|raw| + 4 + |name|] == name && t[|raw| + 4 + |name|..] == tail
    ensures SplitFrom(t, p) == [raw[p..] + "\n\n", name, tail]
  {
    SplitLastMarker(t, p, |raw| + 2, |raw| + 4 + |name|);
  }

  lemma WidenAfterLast(raw: string, p: nat)
    requires p <= |raw| && NextMarker(raw, p) == |raw|
    ensures Widen(SplitFrom(raw, p), "\n\n") == [raw[p..] + "\n\n"]
  {
    assert SplitFrom(raw, p) == [raw[p..]];
  }

  /** One marker of `raw` further back: the split of the appended text grows by its two pieces. */
  lemma SplitAppendedStep(raw: string, x: string, t: string, tail: seq<string>,
                          p: nat, m: nat, q: nat, le: nat)
    requires x != [] && x[0] == '\n' && t == raw + x
    requires p <= |raw| && m == NextMarker(raw, p) < |raw| && q == m + 2 && le == LineEnd(raw, q)
    requires SplitFrom(t, le) == Widen(SplitFrom(raw, le), "\n\n") + tail
    ensures SplitFrom(t, p) == Widen(SplitFrom(raw, p), "\n\n") + tail
  {
    NextMarkerAppend(raw, x, p);
    MarkerAppend(raw, x, m);
    LineEndAppend(raw, x, q);
    SplitAtMarker(t, p, m, q, le);
    SplitAtMarker(raw, p, m, q, le);
    SplitCons(t, raw, p, m, q, le);
    var piece := [raw[p..m], raw[q..le]];
    WidenCons(piece, SplitFrom(raw, le), "\n\n");
    Associative(piece, Widen(SplitFrom(raw, le), "\n\n"), tail);
  }

  /** The split of the appended text, from any point of `raw` on. */
  lemma {:induction false} SplitAppended(raw: string, name: string, steps: string, p: nat)
    requires name != [] && !IsSpace(name[0]) && '\n' !in name
    requires forall j :: !IsMarkerAt(steps, j)
    requires p <= |raw|
    ensures SplitFrom(raw + AppendText(name, steps), p)
            == Widen(SplitFrom(raw, p), "\n\n") + [name, "\n\n" + steps + "\n"]
    decreases |raw| - p
  {
    var m := NextMarker(raw, p);
    if m == |raw| {
      SplitAppendedAfterLast(raw, name, steps, p);
    } else {
      var q := m + 2;
      var le := LineEnd(raw, q);
      SplitAppended(raw, name, steps, le);
      var x := AppendText(name, steps);
      SplitAppendedStep(raw, x, raw + x, [name, "\n\n" + steps + "\n"], p, m, q, le);
    }
  }

  lemma SplitCons(t: string, raw: string, p: nat, m: nat, q: nat, le: nat)
    requires p <= m && q == m + 2 && q <= le <= |raw| <= |t| && raw == t[..|raw|]
    ensures t[p..m] == raw[p..m] && t[q..le] == raw[q..le]
  {
    assert t[..|raw|][p..m] == t[p..m];
    assert t[..|raw|][q..le] == t[q..le];
  }

  lemma WidenCons(a: seq<string>, b: seq<string>, g: string)
    requires b != []
    ensures Widen(a + b, g) == a + Widen(b, g)
  {
    assert (a + b)[..|a + b| - 1] == a + b[..|b| - 1];
  }

  lemma BlankAppendGap(x: string)
    ensures IsBlank(x + "\n\n") == IsBlank(x)
  {
    BlankSplit(x + "\n\n", |x|);
    assert (x + "\n\n")[..|x|] == x;
    assert (x + "\n\n")[|x|..] == "\n\n";
  }

  /** The split cut before its last marker, as the widened text sees it. */
  lemma LastPair(parts: seq<string>, k: nat, pre: seq<string>, ln: string, lb: string,
                 g: string, name: string, tail: string)
    requires |parts| >= 2 && k == |parts| - 2
    requires pre == parts[..k] && ln == parts[k] && lb == parts[k + 1]
    ensures ln == parts[|parts| - 2] && |pre| == k
    ensures parts == pre + [ln, lb]
    ensures Widen(parts, g) + [name, tail] == pre + [ln, lb + g, name, tail]
  {
    assert parts[..k + 1] == pre + [ln];
  }

  lemma NamedAtSame(parts: seq<string>, w: seq<string>, i: nat)
    requires i + 1 < |parts| && i + 1 < |w| && w[i] == parts[i] && w[i + 1] == parts[i + 1]
    ensures NamedAt(w, i) == NamedAt(parts, i)
  {
  }

  /**
   * The fold over `a + b` from `i` on, when `a` holds whole (marker, body)
   * pairs from `i` on: the rounds of `a`, then the rounds of `b`.
   */
  lemma {:induction false} NamedFromConcat(a: seq<string>, b: seq<string>, i: nat, pairs: nat)
    requires i + 2 * pairs == |a|
    ensures NamedFrom(a + b, i) == NamedFrom(a, i) + NamedFrom(b, 0)
    decreases pairs
  {
    var ab := a + b;
    if pairs == 0 {
      assert ab[|a|..] == b;
      NamedFromSuffix(ab, |a|, b, 0, i);
      NamedFromPast(a, i);
    } else {
      var i2 := i + 2;
      NamedFromConcat(a, b, i2, pairs - 1);
      NamedAtSame(a, ab, i);
      NamedFromUnfold(ab, i, i2);
      NamedFromUnfold(a, i, i2);
      Associative(NamedAt(a, i), NamedFrom(a, i2), NamedFrom(b, 0));
    }
  }

  /** The rounds of the last old marker followed by the new one. */
  lemma LastRounds(ln: string, lb: string, name: string, tail: string)
    requires name != "" && Strip(name) == name
    ensures NamedFrom([ln, lb], 0) == NamedAt([ln, lb], 0)
    ensures NamedFrom([ln, lb, name, tail], 0) == NamedAt([ln, lb], 0) + [Section(name, tail)]
  {
    var four := [ln, lb, name, tail];
    NamedFromUnfold([ln, lb], 0, 2);
    NamedFromUnfold(four, 0, 2);
    NamedFromUnfold(four, 2, 4);
    NamedAtSame([ln, lb], four, 0);
    assert NamedAt(four, 2) == [Section(name, tail)];
  }

  /** The same sections with `g` added to the last body. */
  lemma GrowLastSnoc(front: seq<Section>, name: string, body: string, g: string)
    ensures GrowLast(front + [Section(name, body)], g) == front + [Section(name, body + g)]
  {
    assert (front + [Section(name, body)])[..|front|] == front;
  }

  /** The fold over whole pairs `pre` followed by more pieces. */
  lemma FoldAfter(pre: seq<string>, rest: seq<string>, pairs: nat)
    requires |pre| == 1 + 2 * pairs
    ensures SectionsOf(pre + rest) == (Preface(pre) + NamedFrom(pre, 1)) + NamedFrom(rest, 0)
  {
    NamedFromConcat(pre, rest, 1, pairs);
    assert (pre + rest)[0] == pre[0];
    Associative(Preface(pre), NamedFrom(pre, 1), NamedFrom(rest, 0));
  }

  lemma OddLess(n: nat, k: nat)
    requires Odd(n) && n >= 2 && k == n - 2
    ensures Odd(k)
  {
  }

  /** The fold over the widened pieces as a whole, with at least one marker. */
  lemma SectionsOfWidenedMarkers(parts: seq<string>, name: string, tail: string)
    requires Odd(|parts|) && |parts| >= 3
    requires name != "" && Strip(name) == name
    ensures var kept := !IsBlank(parts[|parts| - 2]);
            SectionsOf(Widen(parts, "\n\n") + [name, tail])
            == (if kept then GrowLast(SectionsOf(parts), "\n\n") else SectionsOf(parts)) + [Section(name, tail)]
  {
    var g := "\n\n";
    var k := |parts| - 2;
    var pre, ln, lb := parts[..k], parts[k], parts[k + 1];
    LastPair(parts, k, pre, ln, lb, g, name, tail);
    OddLess(|parts|, k);
    var pairs := Pairs(k);
    var rest, restW := [ln, lb], [ln, lb + g, name, tail];
    FoldAfter(pre, rest, pairs);
    FoldAfter(pre, restW, pairs);
    LastRounds(ln, lb, name, tail);
    LastRounds(ln, lb + g, name, tail);
    var front := Preface(pre) + NamedFrom(pre, 1);
    var lastW := NamedAt([ln, lb + g], 0);
    Associative(front, lastW, [Section(name, tail)]);
    assert SectionsOf(parts) == front + NamedAt(rest, 0);
    assert SectionsOf(Widen(parts, g) + [name, tail]) == (front + lastW) + [Section(name, tail)];
    BlankStrip(ln);
    if !IsBlank(ln) {
      assert NamedAt(rest, 0) == [Section(Strip(ln), lb)];
      assert NamedAt([ln, lb + g], 0) == [Section(Strip(ln), lb + g)];
      GrowLastSnoc(front, Strip(ln), lb, g);
    } else {
      assert NamedAt(rest, 0) == [];
      assert NamedAt([ln, lb + g], 0) == [];
    }
  }

  /** The fold over the widened pieces when the old text has no marker. */
  lemma SectionsOfWidenedPlain(parts: seq<string>, name: string, tail: string)
    requires |parts| == 1
    requires name != "" && Strip(name) == name
    ensures SectionsOf(Widen(parts, "\n\n") + [name, tail])
            == (if !IsBlank(parts[0]) then GrowLast(SectionsOf(parts), "\n\n") else SectionsOf(parts))
               + [Section(name, tail)]
  {
    var p0 := parts[0];
    var w := Widen(parts, "\n\n") + [name, tail];
    assert w == [p0 + "\n\n", name, tail];
    ThreePieces(w, p0 + "\n\n", name, tail);
    OnePiece(parts);
    BlankAppendGap(p0);
    BlankStrip(p0);
    BlankStrip(p0 + "\n\n");
    var sec := [Section(name, tail)];
    if !IsBlank(p0) {
      assert Preface(parts) == [Section(GeneralName, p0)];
      assert Preface(w) == [Section(GeneralName, p0 + "\n\n")];
      GrowLastSnoc([], GeneralName, p0, "\n\n");
      assert [] + [Section(GeneralName, p0)] == SectionsOf(parts);
    } else {
      assert Preface(parts) == [] && Preface(w) == [];
    }
  }

  /** A single piece has only its preface. */
  lemma OnePiece(parts: seq<string>)
    requires |parts| == 1
    ensures SectionsOf(parts) == Preface(parts)
  {
    NamedFromPast(parts, 1);
  }

  /** Three pieces: the preface, then the section the (clean) name and the body make. */
  lemma ThreePieces(w: seq<string>, a: string, name: string, tail: string)
    requires w == [a, name, tail] && name != "" && Strip(name) == name
    ensures SectionsOf(w) == Preface(w) + [Section(name, tail)]
  {
    NamedFromUnfold(w, 1, 3);
    NamedFromPast(w, 3);
    assert NamedAt(w, 1) == [Section(name, tail)];
  }

  /** The fold over the widened pieces as a whole. */
  lemma SectionsOfWidened(parts: seq<string>, name: string, tail: string)
    requires Odd(|parts|)
    requires name != "" && Strip(name) == name
    ensures var kept := if |parts| == 1 then !IsBlank(parts[0]) else !IsBlank(parts[|parts| - 2]);
            SectionsOf(Widen(parts, "\n\n") + [name, tail])
            == (if kept then GrowLast(SectionsOf(parts), "\n\n") else SectionsOf(parts)) + [Section(name, tail)]
  {
    if |parts| == 1 {
      SectionsOfWidenedPlain(parts, name, tail);
    } else {
      SectionsOfWidenedMarkers(parts, name, tail);
    }
  }

  /**
   * Appending a section with a non-blank single-line name and steps that
   * hold no marker line: the parse is the old parse followed by exactly one
   * new section, the name with the steps between blank lines; the only
   * other change is that the separator "\n\n" joins the old last body when
   * that body belongs to a section (`TailKept`).
   */
  lemma AppendRoundTrip(raw: string, appName: string, appSteps: string)
    requires !IsBlank(appName) && '\n' !in Strip(appName)
    requires forall j :: !IsMarkerAt(Strip(appSteps), j)
    ensures AddSection(raw, appName, appSteps).Saved?
    ensures var name := Strip(appName);
            var steps := Strip(appSteps);
            Parse(AddSection(raw, appName, appSteps).text)
            == (if TailKept(raw) then GrowLast(Parse(raw), "\n\n") else Parse(raw))
               + [Section(name, "\n\n" + steps + "\n")]
  {
    var name := Strip(appName);
    var steps := Strip(appSteps);
    StripSpec(appName);
    StripIdempotent(appName);
    SplitAppended(raw, name, steps, 0);
    SplitFromOdd(raw, 0);
    SectionsOfWidened(SplitParts(raw), name, "\n\n" + steps + "\n");
  }

  lemma GrowLastShape(secs: seq<Section>, g: string)
    ensures |GrowLast(secs, g)| == |secs|
    ensures forall k :: 0 <= k < |secs| ==> GrowLast(secs, g)[k].name == secs[k].name
    ensures forall k :: 0 <= k < |secs| - 1 ==> GrowLast(secs, g)[k] == secs[k]
    ensures secs != [] ==> GrowLast(secs, g)[|secs| - 1].body == secs[|secs| - 1].body + g
  {
  }

  /**
   * What a reader of the store sees after an "add": one more section, the
   * new one last; every earlier section keeps its name, and every one but
   * the old last keeps its body.
   */
  lemma AppendAddsOneSection(raw: string, appName: string, appSteps: string)
    requires !IsBlank(appName) && '\n' !in Strip(appName)
    requires forall j :: !IsMarkerAt(Strip(appSteps), j)
    ensures var before := Parse(raw);
            var after := Parse(AddSection(raw, appName, appSteps).text);
            && |after| == |before| + 1
            && after[|before|] == Section(Strip(appName), "\n\n" + Strip(appSteps) + "\n")
            && (forall k :: 0 <= k < |before| ==> after[k].name == before[k].name)
            && (forall k :: 0 <= k < |before| - 1 ==> after[k] == before[k])
  {
    var before := Parse(raw);
    var after := Parse(AddSection(raw, appName, appSteps).text);
    AppendRoundTrip(raw, appName, appSteps);
    var grown := if TailKept(raw) then GrowLast(before, "\n\n") else before;
    GrowLastShape(before, "\n\n");
    SnocShape(before, grown, Section(Strip(appName), "\n\n" + Strip(appSteps) + "\n"), after);
  }

  /** Sections that keep the old names (and all but the last body), followed by one more. */
  lemma SnocShape(before: seq<Section>, grown: seq<Section>, sec: Section, after: seq<Section>)
    requires after == grown + [sec] && |grown| == |before|
    requires forall k :: 0 <= k < |before| ==> grown[k].name == before[k].name
    requires forall k :: 0 <= k < |before| - 1 ==> grown[k] == before[k]
    ensures |after| == |before| + 1 && after[|before|] == sec
    ensures forall k :: 0 <= k < |before| ==> after[k].name == before[k].name
    ensures forall k :: 0 <= k < |before| - 1 ==> after[k] == before[k]
  {
    forall k | 0 <= k < |before| ensures after[k] == grown[k] {
    }
  }
}
