/**
 * `format_content`: the renderer that turns the body of one section into
 * HTML, line by line, with `### ` and `## ` headings, `- ` bullet items
 * grouped into one list, and paragraphs; bullets and paragraphs have their
 * `**bold**` spans turned into `<strong>`.
 */
module Render {
  import opened Opt
  import opened Text

  // ---------------------------------------------------------------------
  // html.escape(s, quote=True)
  // ---------------------------------------------------------------------

  function EscapeChar(c: char): string {
    if c == '&' then "&amp;"
    else if c == '<' then "&lt;"
    else if c == '>' then "&gt;"
    else if c == '"' then "&quot;"
    else if c == '\'' then "&#x27;"
    else [c]
  }

  /** `html.escape(s)`: every character replaced by its entity, if it has one. */
  function Escape(s: string): string {
    if s == [] then "" else EscapeChar(s[0]) + Escape(s[1..])
  }

  /** Decoding of the five entities `Escape` writes; every other character stands for itself. */
  function Unescape(s: string): string
    decreases |s|
  {
    if s == [] then ""
    else if s[0] != '&' then [s[0]] + Unescape(s[1..])
    else if StartsWith(s, "&amp;") then "&" + Unescape(s[5..])
    else if StartsWith(s, "&lt;") then "<" + Unescape(s[4..])
    else if StartsWith(s, "&gt;") then ">" + Unescape(s[4..])
    else if StartsWith(s, "&quot;") then "\"" + Unescape(s[6..])
    else if StartsWith(s, "&#x27;") then "'" + Unescape(s[6..])
    else [s[0]] + Unescape(s[1..])
  }

  lemma UnescapeEscapeChar(c: char, rest: string)
    ensures Unescape(EscapeChar(c) + rest) == [c] + Unescape(rest)
  {
    var x := EscapeChar(c);
    var e := x + rest;
    var n := |x|;
    EntityPrefix(e, x, rest, n);
    if c == '&' || c == '<' || c == '>' || c == '"' || c == '\'' {
      assert e[0] == '&';
      SecondLetter(e, x);
      if c == '&' {
      } else if c == '<' {
        assert !StartsWith(e, "&amp;");
      } else if c == '>' {
        assert !StartsWith(e, "&amp;") && !StartsWith(e, "&lt;");
      } else if c == '"' {
        assert !StartsWith(e, "&amp;") && !StartsWith(e, "&lt;") && !StartsWith(e, "&gt;");
      } else {
        assert !StartsWith(e, "&amp;") && !StartsWith(e, "&lt;") && !StartsWith(e, "&gt;") && !StartsWith(e, "&quot;");
      }
    } else {
      assert x == [c] && e[0] == c;
    }
  }

  /** An entity followed by more text starts with the entity. */
  lemma EntityPrefix(e: string, x: string, rest: string, n: nat)
    requires e == x + rest && n == |x|
    ensures StartsWith(e, x) && e[n..] == rest
  {
    assert e[..n] == x;
  }

  /** The second character of a text that starts with an entity decides which prefixes it has. */
  lemma SecondLetter(e: string, x: string)
    requires 2 <= |x| && StartsWith(e, x)
    ensures e[1] == x[1]
    ensures forall y :: 2 <= |y| && y[1] != x[1] ==> !StartsWith(e, y)
  {
    assert e[..|x|][1] == e[1];
    forall y | 2 <= |y| && y[1] != x[1] ensures !StartsWith(e, y) {
      if |y| <= |e| {
        assert e[..|y|][1] == e[1];
      }
    }
  }

  /** Escaping loses nothing: decoding the entities gives the text back. */
  lemma {:induction false} UnescapeEscape(s: string)
    ensures Unescape(Escape(s)) == s
  {
    if s != [] {
      UnescapeEscapeChar(s[0], Escape(s[1..]));
      UnescapeEscape(s[1..]);
    }
  }

  /** No character that could open a tag or end an attribute value survives escaping. */
  predicate MarkupFree(s: string) {
    forall k :: 0 <= k < |s| ==> s[k] != '<' && s[k] != '>' && s[k] != '"' && s[k] != '\''
  }

  lemma {:induction false} EscapeMarkupFree(s: string)
    ensures MarkupFree(Escape(s))
  {
    if s != [] {
      EscapeMarkupFree(s[1..]);
      var e := EscapeChar(s[0]);
      assert MarkupFree(e);
      var r := Escape(s[1..]);
      forall k | 0 <= k < |e + r| ensures (e + r)[k] != '<' && (e + r)[k] != '>' && (e + r)[k] != '"' && (e + r)[k] != '\'' {
        if k < |e| { assert (e + r)[k] == e[k]; } else { assert (e + r)[k] == r[k - |e|]; }
      }
    }
  }

  // ---------------------------------------------------------------------
  // re.sub(r'\*\*(.+?)\*\*', r'<strong>\1</strong>', s)
  // ---------------------------------------------------------------------

  /** A character kept as it is, or a bold span with its text. */
  datatype Inline = Char(c: char) | Strong(text: string)

  /**
   * A span opened at `start - 2` can close at `k`: `**` stands at `k`, the
   * text `s[start..k]` is not empty and holds no newline (`.` stops there).
   */
  predicate ClosesAt(s: string, start: nat, k: nat) {
    start < k && OccursAt(s, "**", k) && forall m :: start <= m < k ==> s[m] != '\n'
  }

  /** The closing `**` of `.+?`: the first candidate from `j` on, trying shorter texts first. */
  function FindClose(s: string, start: nat, j: nat): (r: Option<nat>)
    requires start < j
    requires forall m :: start <= m < j - 1 && m < |s| ==> s[m] != '\n'
    ensures r.Some? ==> j <= r.value && ClosesAt(s, start, r.value)
    ensures r.Some? ==> forall k :: j <= k < r.value ==> !ClosesAt(s, start, k)
    ensures r.None? ==> forall k :: j <= k ==> !ClosesAt(s, start, k)
    decreases |s| - j
  {
    if j + 2 > |s| then
      assert forall k :: j <= k ==> !ClosesAt(s, start, k) by {
        forall k | j <= k ensures !ClosesAt(s, start, k) {
          assert !OccursAt(s, "**", k);
        }
      }
      None
    else if s[j - 1] == '\n' then
      assert forall k :: j <= k ==> !ClosesAt(s, start, k) by {
        forall k | j <= k ensures !ClosesAt(s, start, k) {
          assert start <= j - 1 < k;
        }
      }
      None
    else if OccursAt(s, "**", j) then Some(j)
    else FindClose(s, start, j + 1)
  }

  /** The scan of `re.sub` from `i`: a span where one opens and closes, otherwise one character. */
  function BoldFrom(s: string, i: nat): seq<Inline>
    requires i <= |s|
    decreases |s| - i
  {
    if i == |s| then []
    else match SpanEnd(s, i)
      case Some(j) => [Strong(s[i + 2..j])] + BoldFrom(s, j + 2)
      case None => [Char(s[i])] + BoldFrom(s, i + 1)
  }

  /** Where a span opened by `**` at `i` closes, if one does. */
  function SpanEnd(s: string, i: nat): (r: Option<nat>)
    ensures r.Some? ==> OccursAt(s, "**", i)
    ensures r.Some? ==> i + 3 <= r.value && r.value + 2 <= |s| && OccursAt(s, "**", r.value)
  {
    if OccursAt(s, "**", i) then FindClose(s, i + 2, i + 3) else None
  }

  function BoldPieces(s: string): seq<Inline> {
    BoldFrom(s, 0)
  }

  /** The pieces written back with their `**` markers. */
  function Markup(ps: seq<Inline>): string {
    if ps == [] then ""
    else (match ps[0] case Char(c) => [c] case Strong(t) => "**" + t + "**") + Markup(ps[1..])
  }

  /** The pieces as HTML. */
  function RenderInline(ps: seq<Inline>): string {
    if ps == [] then ""
    else (match ps[0] case Char(c) => [c] case Strong(t) => "<strong>" + t + "</strong>") + RenderInline(ps[1..])
  }

  function Bold(s: string): string {
    RenderInline(BoldPieces(s))
  }

  lemma MarkupCons(p: Inline, ps: seq<Inline>)
    ensures Markup([p] + ps) == Markup([p]) + Markup(ps)
  {
    assert ([p] + ps)[1..] == ps;
    assert [p][1..] == [];
  }

  /** A span with its markers, and what follows it. */
  lemma SpanSplit(s: string, i: nat, j: nat)
    requires i + 2 <= j && j + 2 <= |s| && OccursAt(s, "**", i) && OccursAt(s, "**", j)
    ensures s[i..] == "**" + s[i + 2..j] + "**" + s[j + 2..]
  {
    assert s[i..] == s[i..i + 2] + s[i + 2..j] + s[j..j + 2] + s[j + 2..];
  }

  /** The substitution only rewrites markers: writing them back gives the text. */
  lemma {:induction false} MarkupBoldFrom(s: string, i: nat)
    requires i <= |s|
    ensures Markup(BoldFrom(s, i)) == s[i..]
    decreases |s| - i
  {
    if i < |s| {
      var i1, i2 := i + 1, i + 2;
      var r := SpanEnd(s, i);
      if r.Some? {
        var j := r.value;
        var j2 := j + 2;
        BoldFromSpanStep(s, i, i2, j, j2);
        MarkupBoldFrom(s, j2);
        MarkupSpanStep(s, i, i2, j, j2, BoldFrom(s, j2));
      } else {
        BoldFromCharStep(s, i, i1);
        MarkupBoldFrom(s, i1);
        MarkupCharStep(s, i, i1, BoldFrom(s, i1));
      }
    }
  }

  /** `BoldFrom` at a span that closes at `j`. */
  lemma BoldFromSpanStep(s: string, i: nat, i2: nat, j: nat, j2: nat)
    requires i < |s| && i2 == i + 2 && j2 == j + 2
    requires SpanEnd(s, i) == Some(j)
    ensures BoldFrom(s, i) == [Strong(s[i2..j])] + BoldFrom(s, j2)
  {
  }

  /** `BoldFrom` where no span opens. */
  lemma BoldFromCharStep(s: string, i: nat, i1: nat)
    requires i < |s| && i1 == i + 1
    requires SpanEnd(s, i).None?
    ensures BoldFrom(s, i) == [Char(s[i])] + BoldFrom(s, i1)
  {
  }

  lemma MarkupSpanStep(s: string, i: nat, i2: nat, j: nat, j2: nat, rest: seq<Inline>)
    requires i2 == i + 2 && i2 < j && j2 == j + 2 && j2 <= |s|
    requires OccursAt(s, "**", i) && OccursAt(s, "**", j)
    requires Markup(rest) == s[j2..]
    ensures Markup([Strong(s[i2..j])] + rest) == s[i..]
  {
    var t := s[i2..j];
    MarkupCons(Strong(t), rest);
    assert Markup([Strong(t)]) == "**" + t + "**";
    SpanSplit(s, i, j);
  }

  lemma MarkupCharStep(s: string, i: nat, i1: nat, rest: seq<Inline>)
    requires i1 == i + 1 && i1 <= |s|
    requires Markup(rest) == s[i1..]
    ensures Markup([Char(s[i])] + rest) == s[i..]
  {
    MarkupCons(Char(s[i]), rest);
    assert Markup([Char(s[i])]) == [s[i]];
    assert s[i..] == [s[i]] + s[i1..];
  }

  lemma MarkupBold(s: string)
    ensures Markup(BoldPieces(s)) == s
  {
    MarkupBoldFrom(s, 0);
  }

  /**
   * The text of a bold span: not empty, without a newline, and the shortest
   * possible — no `**` starts inside it before the closing one.
   */
  predicate ShortestSpan(t: string) {
    && t != ""
    && '\n' !in t
    && forall p :: 1 <= p < |t| ==> !OccursAt(t + "*", "**", p)
  }

  lemma SpanShape(s: string, i: nat, j: nat)
    requires SpanEnd(s, i) == Some(j)
    ensures i + 2 < j <= |s| && ShortestSpan(s[i + 2..j])
  {
    assert FindClose(s, i + 2, i + 3) == Some(j);
    var t := s[i + 2..j];
    var i2 := i + 2;
    assert ClosesAt(s, i2, j);
    assert s[j] == '*' by { assert s[j..j + 2][0] == s[j]; }
    forall m | 0 <= m < |t| ensures t[m] != '\n' {
      var k := i2 + m;
      SpanChar(s, i2, j, t, m, k);
    }
    forall p | 1 <= p < |t| ensures !OccursAt(t + "*", "**", p) {
      var k := i2 + p;
      SpanNoMarker(s, i2, j, t, p, k);
    }
  }

  lemma SpanChar(s: string, i2: nat, j: nat, t: string, m: nat, k: nat)
    requires i2 <= j <= |s| && t == s[i2..j] && m < |t| && k == i2 + m
    requires ClosesAt(s, i2, j)
    ensures t[m] == s[k] && t[m] != '\n'
  {
  }

  /** No `**` starts inside the span: an earlier one would have closed it. */
  lemma SpanNoMarker(s: string, i2: nat, j: nat, t: string, p: nat, k: nat)
    requires i2 < j < |s| && t == s[i2..j] && 1 <= p < |t| && k == i2 + p && s[j] == '*'
    requires FindClose(s, i2, i2 + 1) == Some(j)
    ensures !OccursAt(t + "*", "**", p)
  {
    var u := t + "*";
    assert !ClosesAt(s, i2, k);
    assert ClosesAt(s, i2, j);
    assert u[p..p + 2] == s[k..k + 2] by {
      assert u[p] == s[k];
      assert u[p + 1] == s[k + 1];
    }
    assert forall m :: i2 <= m < k ==> s[m] != '\n';
  }

  predicate SpansShortest(ps: seq<Inline>) {
    forall k :: 0 <= k < |ps| && ps[k].Strong? ==> ShortestSpan(ps[k].text)
  }

  lemma SpansShortestCons(p: Inline, ps: seq<Inline>)
    requires p.Strong? ==> ShortestSpan(p.text)
    requires SpansShortest(ps)
    ensures SpansShortest([p] + ps)
  {
    forall k | 0 <= k < |[p] + ps| && ([p] + ps)[k].Strong? ensures ShortestSpan(([p] + ps)[k].text) {
      if k > 0 {
        assert ([p] + ps)[k] == ps[k - 1];
      }
    }
  }

  lemma {:induction false} BoldFromSpans(s: string, i: nat)
    requires i <= |s|
    ensures SpansShortest(BoldFrom(s, i))
    decreases |s| - i
  {
    if i < |s| {
      var i1, i2 := i + 1, i + 2;
      var r := SpanEnd(s, i);
      if r.Some? {
        var j := r.value;
        var j2 := j + 2;
        BoldFromSpanStep(s, i, i2, j, j2);
        SpanShape(s, i, j);
        BoldFromSpans(s, j2);
        SpansShortestCons(Strong(s[i2..j]), BoldFrom(s, j2));
      } else {
        BoldFromCharStep(s, i, i1);
        BoldFromSpans(s, i1);
        SpansShortestCons(Char(s[i]), BoldFrom(s, i1));
      }
    }
  }

  /** Every bold span is the shortest non-empty text between two markers on one line. */
  lemma BoldSpans(s: string)
    ensures SpansShortest(BoldPieces(s))
  {
    BoldFromSpans(s, 0);
  }

  // ---------------------------------------------------------------------
  // Lines to blocks, blocks to HTML parts
  // ---------------------------------------------------------------------

  /** What one non-blank line becomes, its text already escaped (and emboldened). */
  datatype Block = Heading4(text: string) | Heading3(text: string) | Item(html: string) | Para(html: string)

  /** An entry of `html_parts`: the list tags, or one rendered line. */
  datatype Part = OpenList | CloseList | Tag(block: Block)

  /** The `if`/`elif` chain on the stripped line; a blank line yields nothing. */
  function LineBlock(line: string): Option<Block> {
    var st := Strip(line);
    if StartsWith(st, "### ") then Some(Heading4(Escape(st[4..])))
    else if StartsWith(st, "## ") then Some(Heading3(Escape(st[3..])))
    else if StartsWith(st, "- ") then Some(Item(Bold(Escape(st[2..]))))
    else if st != "" then Some(Para(Bold(Escape(st))))
    else None
  }

  /** The parts one line appends, given whether a list is open. */
  function StepParts(b: Option<Block>, open: bool): seq<Part> {
    match b
    case None => []
    case Some(blk) =>
      if blk.Item? then (if open then [] else [OpenList]) + [Tag(blk)]
      else (if open then [CloseList] else []) + [Tag(blk)]
  }

  /** Whether a list is open after the line. */
  function StepOpen(b: Option<Block>, open: bool): bool {
    match b
    case None => open
    case Some(blk) => blk.Item?
  }

  /** The parts for `lines`, starting with a list open or not, and closing it at the end. */
  function Layout(lines: seq<string>, open: bool): seq<Part>
    decreases |lines|
  {
    if lines == [] then (if open then [CloseList] else [])
    else
      var b := LineBlock(lines[0]);
      StepParts(b, open) + Layout(lines[1..], StepOpen(b, open))
  }

  function BlockHtml(b: Block): string {
    match b
    case Heading4(t) => "<h4>" + t + "</h4>"
    case Heading3(t) => "<h3>" + t + "</h3>"
    case Item(h) => "<li>" + h + "</li>"
    case Para(h) => "<p>" + h + "</p>"
  }

  function PartHtml(p: Part): string {
    match p
    case OpenList => "<ul>"
    case CloseList => "</ul>"
    case Tag(b) => BlockHtml(b)
  }

  function Htmls(ps: seq<Part>): (r: seq<string>)
    ensures |r| == |ps|
  {
    if ps == [] then [] else [PartHtml(ps[0])] + Htmls(ps[1..])
  }

  /** The HTML `format_content` returns for a section body. */
  function RenderContent(content: string): string {
    Join(Htmls(Layout(Lines(content), false)), "\n")
  }

  lemma {:induction false} HtmlsAppend(a: seq<Part>, b: seq<Part>)
    ensures Htmls(a + b) == Htmls(a) + Htmls(b)
  {
    if a != [] {
      assert (a + b)[0] == a[0] && (a + b)[1..] == a[1..] + b;
      HtmlsAppend(a[1..], b);
      Associative([PartHtml(a[0])], Htmls(a[1..]), Htmls(b));
    } else {
      assert a + b == b;
    }
  }

  /** The parts of one line of `format_content`'s loop, as the method builds them. */
  lemma LayoutStep(lines: seq<string>, i: nat, open: bool)
    requires i < |lines|
    ensures Layout(lines[i..], open)
            == StepParts(LineBlock(lines[i]), open) + Layout(lines[i + 1..], StepOpen(LineBlock(lines[i]), open))
  {
    assert lines[i..][1..] == lines[i + 1..];
  }

  /**
   * One pass of `format_content`'s loop body: the strings it appends to
   * `html_parts` (with `close_list` inlined) and the new `list_open`.
   */
  method RenderLine(line: string, listOpen: bool) returns (appended: seq<string>, nowOpen: bool)
    ensures appended == Htmls(StepParts(LineBlock(line), listOpen))
    ensures nowOpen == StepOpen(LineBlock(line), listOpen)
  {
    appended := [];
    nowOpen := listOpen;
    var stripped := Strip(line);
    if StartsWith(stripped, "### ") {
      if nowOpen { appended := appended + ["</ul>"]; nowOpen := false; }
      appended := appended + ["<h4>" + Escape(stripped[4..]) + "</h4>"];
    } else if StartsWith(stripped, "## ") {
      if nowOpen { appended := appended + ["</ul>"]; nowOpen := false; }
      appended := appended + ["<h3>" + Escape(stripped[3..]) + "</h3>"];
    } else if StartsWith(stripped, "- ") {
      if !nowOpen { appended := appended + ["<ul>"]; nowOpen := true; }
      var item := stripped[2..];
      item := Escape(item);
      item := Bold(item);
      appended := appended + ["<li>" + item + "</li>"];
    } else if stripped != "" {
      if nowOpen { appended := appended + ["</ul>"]; nowOpen := false; }
      var txt := Escape(stripped);
      txt := Bold(txt);
      appended := appended + ["<p>" + txt + "</p>"];
    }
  }

  /** `format_content`: the loop over `content.split('\n')`, then the final `close_list`. */
  method FormatContent(content: string) returns (html: string)
    ensures html == RenderContent(content)
  {
    var lines := Lines(content);
    var htmlParts: seq<string> := [];
    var listOpen := false;
    for i := 0 to |lines|
      invariant htmlParts + Htmls(Layout(lines[i..], listOpen)) == Htmls(Layout(lines, false))
    {
      var appended, nowOpen := RenderLine(lines[i], listOpen);
      LayoutStep(lines, i, listOpen);
      HtmlsAppend(StepParts(LineBlock(lines[i]), listOpen), Layout(lines[i + 1..], nowOpen));
      Associative(htmlParts, appended, Htmls(Layout(lines[i + 1..], nowOpen)));
      htmlParts := htmlParts + appended;
      listOpen := nowOpen;
    }
    assert lines[|lines|..] == [];
    if listOpen {
      assert Htmls(Layout([], true)) == ["</ul>"];
      htmlParts := htmlParts + ["</ul>"];
      listOpen := false;
    } else {
      assert Htmls(Layout([], false)) == [];
      assert htmlParts + [] == htmlParts;
    }
    html := Join(htmlParts, "\n");
  }

  // ---------------------------------------------------------------------
  // What the layout guarantees
  // ---------------------------------------------------------------------

  /**
   * The parts read as a well-formed document given whether a list is open:
   * every `<ul>` is closed once, is followed by an item, and items stand
   * only inside a list; headings and paragraphs stand only outside one.
   */
  predicate WellNested(ps: seq<Part>, open: bool)
    decreases |ps|
  {
    if ps == [] then !open
    else match ps[0]
      case OpenList => !open && |ps| > 1 && ps[1].Tag? && ps[1].block.Item? && WellNested(ps[1..], true)
      case CloseList => open && WellNested(ps[1..], false)
      case Tag(b) => open == b.Item? && WellNested(ps[1..], b.Item?)
  }

  lemma {:induction false} LayoutWellNested(lines: seq<string>, open: bool)
    ensures WellNested(Layout(lines, open), open)
    decreases |lines|
  {
    if lines != [] {
      var b := LineBlock(lines[0]);
      var rest := Layout(lines[1..], StepOpen(b, open));
      LayoutWellNested(lines[1..], StepOpen(b, open));
      if b.Some? {
        var blk := b.value;
        var tagged := [Tag(blk)] + rest;
        assert tagged[0] == Tag(blk) && tagged[1..] == rest;
        assert WellNested(tagged, blk.Item?);
        if blk.Item? == open {
          assert StepParts(b, open) == [Tag(blk)];
          assert Layout(lines, open) == tagged;
        } else {
          var lead := if blk.Item? then OpenList else CloseList;
          assert StepParts(b, open) == [lead, Tag(blk)];
          Associative([lead], [Tag(blk)], rest);
          var whole := [lead] + tagged;
          assert Layout(lines, open) == whole;
          assert whole[0] == lead && whole[1..] == tagged && whole[1] == Tag(blk);
        }
      } else {
        assert StepParts(b, open) == [];
        assert Layout(lines, open) == rest;
      }
    }
  }

  /** The HTML of every section body is well nested. */
  lemma RenderWellNested(content: string)
    ensures WellNested(Layout(Lines(content), false), false)
  {
    LayoutWellNested(Lines(content), false);
  }

  /** The rendered lines in order: the non-blank lines' blocks. */
  function Blocks(lines: seq<string>): seq<Block> {
    if lines == [] then []
    else (match LineBlock(lines[0]) case None => [] case Some(b) => [b]) + Blocks(lines[1..])
  }

  function TagsOf(ps: seq<Part>): seq<Block> {
    if ps == [] then [] else (if ps[0].Tag? then [ps[0].block] else []) + TagsOf(ps[1..])
  }

  lemma {:induction false} TagsOfAppend(a: seq<Part>, b: seq<Part>)
    ensures TagsOf(a + b) == TagsOf(a) + TagsOf(b)
  {
    if a != [] {
      assert (a + b)[0] == a[0] && (a + b)[1..] == a[1..] + b;
      TagsOfAppend(a[1..], b);
      Associative(if a[0].Tag? then [a[0].block] else [], TagsOf(a[1..]), TagsOf(b));
    } else {
      assert a + b == b;
    }
  }

  /** Leaving out the list tags, the layout lists one block per non-blank line, in order. */
  lemma {:induction false} LayoutTags(lines: seq<string>, open: bool)
    ensures TagsOf(Layout(lines, open)) == Blocks(lines)
    decreases |lines|
  {
    if lines != [] {
      var b := LineBlock(lines[0]);
      LayoutTags(lines[1..], StepOpen(b, open));
      TagsOfAppend(StepParts(b, open), Layout(lines[1..], StepOpen(b, open)));
      if b.Some? {
        TagsOfAppend(if b.value.Item? then (if open then [] else [OpenList]) else (if open then [CloseList] else []),
                     [Tag(b.value)]);
      }
    }
  }

  /** Exactly the blank lines produce nothing. */
  lemma LineBlockNone(line: string)
    ensures LineBlock(line).None? <==> IsBlank(line)
  {
    StripSpec(line);
  }

  function CountNonBlank(lines: seq<string>): nat {
    if lines == [] then 0 else (if IsBlank(lines[0]) then 0 else 1) + CountNonBlank(lines[1..])
  }

  function CountItems(bs: seq<Block>): nat {
    if bs == [] then 0 else (if bs[0].Item? then 1 else 0) + CountItems(bs[1..])
  }

  /** `line.strip().startswith('- ')`. */
  predicate IsBullet(line: string) {
    StartsWith(Strip(line), "- ")
  }

  function CountBullets(lines: seq<string>): nat {
    if lines == [] then 0 else (if IsBullet(lines[0]) then 1 else 0) + CountBullets(lines[1..])
  }

  /** A line is an item exactly when its stripped form starts with `- `. */
  lemma LineBlockItem(line: string)
    ensures (LineBlock(line).Some? && LineBlock(line).value.Item?) <==> IsBullet(line)
  {
    var st := Strip(line);
    if StartsWith(st, "- ") {
      assert st[0] == '-';
      assert !StartsWith(st, "### ") && !StartsWith(st, "## ");
    }
  }

  /** One block per non-blank line, and one `<li>` per bullet line. */
  lemma {:induction false} BlockCounts(lines: seq<string>)
    ensures |Blocks(lines)| == CountNonBlank(lines)
    ensures CountItems(Blocks(lines)) == CountBullets(lines)
  {
    if lines != [] {
      var rest := Blocks(lines[1..]);
      BlockCounts(lines[1..]);
      LineBlockNone(lines[0]);
      LineBlockItem(lines[0]);
      match LineBlock(lines[0])
      case None =>
        assert Blocks(lines) == rest;
      case Some(b) =>
        assert Blocks(lines) == [b] + rest;
        assert ([b] + rest)[1..] == rest;
    }
  }

  /**
   * Each block carries its line's text: decoding the entities (and writing
   * the bold markers back) gives the stripped line without its marker.
   */
  lemma LineBlockText(line: string)
    ensures var st := Strip(line);
            match LineBlock(line)
            case None => st == ""
            case Some(Heading4(t)) => StartsWith(st, "### ") && Unescape(t) == st[4..] && MarkupFree(t)
            case Some(Heading3(t)) =>
              StartsWith(st, "## ") && !StartsWith(st, "### ") && Unescape(t) == st[3..] && MarkupFree(t)
            case Some(Item(h)) =>
              && StartsWith(st, "- ")
              && h == RenderInline(BoldPieces(Escape(st[2..])))
              && Unescape(Markup(BoldPieces(Escape(st[2..])))) == st[2..]
            case Some(Para(h)) =>
              && st != "" && !StartsWith(st, "- ") && !StartsWith(st, "## ") && !StartsWith(st, "### ")
              && h == RenderInline(BoldPieces(Escape(st)))
              && Unescape(Markup(BoldPieces(Escape(st)))) == st
  {
    var st := Strip(line);
    if StartsWith(st, "### ") {
      UnescapeEscape(st[4..]);
      EscapeMarkupFree(st[4..]);
    } else if StartsWith(st, "## ") {
      UnescapeEscape(st[3..]);
      EscapeMarkupFree(st[3..]);
    } else if StartsWith(st, "- ") {
      MarkupBold(Escape(st[2..]));
      UnescapeEscape(st[2..]);
    } else if st != "" {
      MarkupBold(Escape(st));
      UnescapeEscape(st);
    }
  }

  lemma LayoutCons(x: string, rest: seq<string>, open: bool)
    ensures Layout([x] + rest, open)
            == StepParts(LineBlock(x), open) + Layout(rest, StepOpen(LineBlock(x), open))
  {
    assert ([x] + rest)[0] == x && ([x] + rest)[1..] == rest;
  }

  /** A blank line, wherever it stands, changes nothing: it neither closes a list nor adds a part. */
  lemma {:induction false} BlankLineIgnored(xs: seq<string>, blank: string, ys: seq<string>, open: bool)
    requires IsBlank(blank)
    ensures Layout(xs + ([blank] + ys), open) == Layout(xs + ys, open)
    decreases |xs|
  {
    LineBlockNone(blank);
    var t := [blank] + ys;
    if xs == [] {
      assert xs + t == t && xs + ys == ys;
      LayoutCons(blank, ys, open);
      assert StepParts(LineBlock(blank), open) == [];
    } else {
      var x, xt := xs[0], xs[1..];
      var o := StepOpen(LineBlock(x), open);
      HeadSplit(xs, x, xt, t);
      HeadSplit(xs, x, xt, ys);
      LayoutCons(x, xt + t, open);
      LayoutCons(x, xt + ys, open);
      BlankLineIgnored(xt, blank, ys, o);
    }
  }

  lemma HeadSplit(xs: seq<string>, x: string, xt: seq<string>, tail: seq<string>)
    requires xs != [] && x == xs[0] && xt == xs[1..]
    ensures xs + tail == [x] + (xt + tail)
  {
    assert xs == [x] + xt;
    Associative([x], xt, tail);
  }
}
