/** The textual dump of a parse tree, and how it can be read back (src/bridge.cpp:34-86). */
module TreeDump {
  import opened Wrappers
  import opened Numerals
  import opened LokSyntax
  import opened NodeKinds

  datatype Span = Span(startLine: nat, startColumn: nat, endLine: nat, endColumn: nat)

  /** A node with its place in the file. `decimal` is the text a stream makes of its floating point value. */
  datatype Tree = Tree(kind: Kind, span: Span, text: string, number: int, decimal: string, children: seq<Tree>)

  function IntText(n: int): string {
    if n < 0 then "-" + Digits(-n, false) else Digits(n, false)
  }

  /** The value printed for a node. */
  function Shown(t: Tree): Option<string> {
    if t.kind in {DECL, PARAM, LIBNAME, FILEPATH, VALSTR, QUALPATH, EXPRBASIC, ATTR} then Some(t.text)
    else if t.kind in {RUN, VALINT, TYPEQUALARR} then Some(IntText(t.number))
    else if t.kind == VALFLOAT then Some(t.decimal)
    else None
  }

  function ShownText(shown: Option<string>): string {
    if shown.None? then "" else " -- " + shown.value
  }

  function EndText(span: Span, shown: Option<string>): string {
    ", end:" + (Digits(span.endLine, false) + (":" + (Digits(span.endColumn, false) + (">" + ShownText(shown)))))
  }

  function SpanText(span: Span, shown: Option<string>): string {
    "] <start:" + (Digits(span.startLine, false) + (":" + (Digits(span.startColumn, false) + EndText(span, shown))))
  }

  /** The line of a node without its indentation. */
  function Label(t: Tree): string {
    "[" + (Digits(KindNumber(t.kind), false) + (":" + (KindName(t.kind) + SpanText(t.span, Shown(t)))))
  }

  /** Nothing for the root, else a dash behind one space less than the depth. */
  function Indent(depth: nat): string {
    if depth == 0 then "" else Spaces(depth - 1) + "-"
  }

  function Spaces(n: nat): string {
    if n == 0 then "" else " " + Spaces(n - 1)
  }

  /** A tree of titles. */
  datatype Outline = Outline(title: string, parts: seq<Outline>)

  function OutlineOf(t: Tree): Outline {
    Outline(Label(t), OutlinesOf(t.children))
  }

  function OutlinesOf(ts: seq<Tree>): (parts: seq<Outline>)
    ensures |parts| == |ts|
  {
    if ts == [] then [] else [OutlineOf(ts[0])] + OutlinesOf(ts[1..])
  }

  /** One line for every node, each followed by those of its parts. */
  function Dump(o: Outline, depth: nat): string
    decreases o
  {
    Indent(depth) + o.title + "\n" + DumpAll(o.parts, depth + 1)
  }

  function DumpAll(os: seq<Outline>, depth: nat): string
    decreases os
  {
    if os == [] then "" else Dump(os[0], depth) + DumpAll(os[1..], depth)
  }

  function DumpOf(t: Tree): string {
    Dump(OutlineOf(t), 0)
  }

  class OutFile {
    var text: string

    constructor ()
      ensures text == ""
    {
      text := "";
    }
  }

  lemma IndentAdded(before: string, depth: nat, after: string)
    requires after
             == (if depth == 0 then before else if depth == 1 then before + "-" else before + Spaces(depth - 1) + "-")
    ensures after == before + Indent(depth)
  {
  }

  lemma Reassociate(a: string, b: string, c: string, d: string, e: string)
    ensures a + b + c + d + e == a + (b + c + d + e)
  {
  }

  lemma Joined(a: string, b: string, c: string)
    ensures a + (b + c) == a + b + c && a + "" == a
  {
  }

  method RecursivePrint(node: Tree, out: OutFile, depth: nat)
    modifies out
    ensures out.text == old(out.text) + Dump(OutlineOf(node), depth)
    decreases node
  {
    ghost var before, o := out.text, OutlineOf(node);
    if depth > 1 {
      out.text := out.text + Spaces(depth - 1);
    }
    if depth >= 1 {
      out.text := out.text + "-";
    }
    IndentAdded(before, depth, out.text);
    out.text := out.text + Label(node);
    out.text := out.text + "\n";
    ghost var parts := DumpAll(o.parts, depth + 1);
    Reassociate(before, Indent(depth), o.title, "\n", parts);
    ghost var whole := before + Dump(o, depth);
    assert node.children[0..] == node.children;
    for i := 0 to |node.children|
      invariant out.text + DumpAll(OutlinesOf(node.children[i..]), depth + 1) == whole
    {
      ghost var printed, rest := out.text, node.children[i + 1..];
      assert node.children[i..][1..] == rest;
      PartsPrinted(printed, node.children[i], rest, node.children[i..], depth + 1);
      RecursivePrint(node.children[i], out, depth + 1);
    }
    Joined(out.text, "", "");
  }

  lemma PartsPrinted(before: string, first: Tree, rest: seq<Tree>, ts: seq<Tree>, depth: nat)
    requires ts != [] && ts[0] == first && ts[1..] == rest
    ensures before + DumpAll(OutlinesOf(ts), depth)
            == before + Dump(OutlineOf(first), depth) + DumpAll(OutlinesOf(rest), depth)
  {
    var parts := OutlinesOf(ts);
    assert parts[0] == OutlineOf(first) && parts[1..] == OutlinesOf(rest);
    Joined(before, Dump(OutlineOf(first), depth), DumpAll(OutlinesOf(rest), depth));
  }

  method DumpAST(root: Tree) returns (out: OutFile)
    ensures fresh(out) && out.text == DumpOf(root)
  {
    out := new OutFile();
    RecursivePrint(root, out, 0);
  }

  // ----- Lines ------------------------------------------------------------------------------------

  datatype Line = Line(depth: nat, title: string)

  function LinesOf(o: Outline, depth: nat): seq<Line>
    decreases o
  {
    [Line(depth, o.title)] + LinesOfAll(o.parts, depth + 1)
  }

  function LinesOfAll(os: seq<Outline>, depth: nat): seq<Line>
    decreases os
  {
    if os == [] then [] else LinesOf(os[0], depth) + LinesOfAll(os[1..], depth)
  }

  function LineText(line: Line): string {
    Indent(line.depth) + line.title
  }

  function Unlines(lines: seq<Line>): string {
    if lines == [] then "" else LineText(lines[0]) + "\n" + Unlines(lines[1..])
  }

  lemma {:induction false} UnlinesConcat(a: seq<Line>, b: seq<Line>)
    ensures Unlines(a + b) == Unlines(a) + Unlines(b)
    decreases a
  {
    if a == [] {
      assert a + b == b;
    } else {
      assert (a + b)[1..] == a[1..] + b;
      UnlinesConcat(a[1..], b);
      Joined(LineText(a[0]) + "\n", Unlines(a[1..]), Unlines(b));
    }
  }

  lemma {:induction false} DumpIsLines(o: Outline, depth: nat)
    ensures Dump(o, depth) == Unlines(LinesOf(o, depth))
    decreases o
  {
    DumpAllIsLines(o.parts, depth + 1);
    assert LinesOf(o, depth)[1..] == LinesOfAll(o.parts, depth + 1);
  }

  lemma {:induction false} DumpAllIsLines(os: seq<Outline>, depth: nat)
    ensures DumpAll(os, depth) == Unlines(LinesOfAll(os, depth))
    decreases os
  {
    if os != [] {
      DumpIsLines(os[0], depth);
      DumpAllIsLines(os[1..], depth);
      UnlinesConcat(LinesOf(os[0], depth), LinesOfAll(os[1..], depth));
    }
  }

  /** The length of the first line. */
  function LineEnd(text: string): (n: nat)
    ensures n <= |text|
  {
    if text == "" || text[0] == '\n' then 0 else 1 + LineEnd(text[1..])
  }

  function ReadLine(text: string): Line {
    if text != "" && text[0] == ' ' then
      var rest := ReadLine(text[1..]);
      Line(rest.depth + 1, rest.title)
    else if text != "" && text[0] == '-' then Line(1, text[1..])
    else Line(0, text)
  }

  function ReadLines(text: string): seq<Line>
    decreases |text|
  {
    var n := LineEnd(text);
    if n == |text| then [] else [ReadLine(text[..n])] + ReadLines(text[n + 1..])
  }

  predicate OneLine(s: string) {
    forall i :: 0 <= i < |s| ==> s[i] != '\n'
  }

  /** A line's own text is on one line and begins with a bracket. */
  predicate IsTitle(title: string) {
    OneLine(title) && title != "" && title[0] == '['
  }

  lemma {:induction false} LineEndAt(line: string, rest: string)
    requires OneLine(line)
    ensures LineEnd(line + "\n" + rest) == |line|
    decreases line
  {
    if line != "" {
      assert (line + "\n" + rest)[1..] == line[1..] + "\n" + rest;
      LineEndAt(line[1..], rest);
    }
  }

  lemma {:induction false} SpacesOneLine(n: nat)
    ensures OneLine(Spaces(n))
  {
    if n > 0 { SpacesOneLine(n - 1); }
  }

  lemma {:induction false} ReadIndented(n: nat, title: string)
    ensures ReadLine(Spaces(n) + ("-" + title)) == Line(n + 1, title)
  {
    var text := Spaces(n) + ("-" + title);
    if n == 0 {
      assert text == "-" + title && text[1..] == title;
    } else {
      assert text[1..] == Spaces(n - 1) + ("-" + title);
      ReadIndented(n - 1, title);
    }
  }

  lemma LineReadsBack(line: Line)
    requires IsTitle(line.title)
    ensures ReadLine(LineText(line)) == line && OneLine(LineText(line))
  {
    if line.depth > 0 {
      assert LineText(line) == Spaces(line.depth - 1) + ("-" + line.title);
      ReadIndented(line.depth - 1, line.title);
      SpacesOneLine(line.depth - 1);
    } else {
      assert LineText(line) == line.title;
    }
  }

  lemma {:induction false} LinesReadBack(lines: seq<Line>)
    requires forall line <- lines :: IsTitle(line.title)
    ensures ReadLines(Unlines(lines)) == lines
    decreases lines
  {
    if lines != [] {
      var first, rest := LineText(lines[0]), Unlines(lines[1..]);
      LineReadsBack(lines[0]);
      LineEndAt(first, rest);
      var text := first + "\n" + rest;
      assert text[..|first|] == first && text[|first| + 1..] == rest;
      LinesReadBack(lines[1..]);
    }
  }

  // ----- Reading a tree back ----------------------------------------------------------------------

  /** The trees that begin at a depth, and the lines left over. */
  function ReadForest(lines: seq<Line>, depth: nat): (r: (seq<Outline>, seq<Line>))
    ensures |r.1| <= |lines|
    decreases |lines|
  {
    if lines == [] || lines[0].depth != depth then ([], lines)
    else
      var parts := ReadForest(lines[1..], depth + 1);
      var more := ReadForest(parts.1, depth);
      ([Outline(lines[0].title, parts.0)] + more.0, more.1)
  }

  predicate Above(lines: seq<Line>, depth: nat) {
    lines == [] || lines[0].depth < depth
  }

  lemma FirstAndAfter(os: seq<Outline>, depth: nat, rest: seq<Line>)
    requires os != []
    ensures LinesOfAll(os, depth) + rest ==
            [Line(depth, os[0].title)] + (LinesOfAll(os[0].parts, depth + 1) + (LinesOfAll(os[1..], depth) + rest))
  {
    assert LinesOf(os[0], depth) == [Line(depth, os[0].title)] + LinesOfAll(os[0].parts, depth + 1);
  }

  lemma {:induction false} ForestReadsBack(os: seq<Outline>, depth: nat, rest: seq<Line>)
    requires Above(rest, depth)
    ensures ReadForest(LinesOfAll(os, depth) + rest, depth) == (os, rest)
    decreases os
  {
    var lines := LinesOfAll(os, depth) + rest;
    if os == [] {
      assert lines == rest;
    } else {
      var o, after := os[0], LinesOfAll(os[1..], depth) + rest;
      FirstIsAbove(os[1..], depth, rest);
      FirstAndAfter(os, depth, rest);
      assert lines[1..] == LinesOfAll(o.parts, depth + 1) + after;
      ForestReadsBack(o.parts, depth + 1, after);
      ForestReadsBack(os[1..], depth, rest);
      ReadFirst(lines, depth, o.parts, after, os[1..], rest);
      assert os == [o] + os[1..];
    }
  }

  lemma ReadFirst(lines: seq<Line>, depth: nat, parts: seq<Outline>, after: seq<Line>, more: seq<Outline>,
                  rest: seq<Line>)
    requires lines != [] && lines[0].depth == depth
    requires ReadForest(lines[1..], depth + 1) == (parts, after) && ReadForest(after, depth) == (more, rest)
    ensures ReadForest(lines, depth) == ([Outline(lines[0].title, parts)] + more, rest)
  {
  }

  lemma FirstIsAbove(os: seq<Outline>, depth: nat, rest: seq<Line>)
    requires Above(rest, depth)
    ensures Above(LinesOfAll(os, depth) + rest, depth + 1)
  {
    if os == [] {
      assert LinesOfAll(os, depth) + rest == rest;
    } else {
      assert LinesOf(os[0], depth)[0] == Line(depth, os[0].title);
    }
  }

  /** The tree of titles in a dump. */
  function ReadBack(text: string): Option<Outline> {
    var read := ReadForest(ReadLines(text), 0);
    if |read.0| == 1 && read.1 == [] then Some(read.0[0]) else None
  }

  predicate AllTitled(os: seq<Outline>) {
    os != [] ==> IsTitle(os[0].title) && AllTitled(os[0].parts) && AllTitled(os[1..])
  }

  lemma {:induction false} TitlesOf(os: seq<Outline>, depth: nat)
    requires AllTitled(os)
    ensures forall line <- LinesOfAll(os, depth) :: IsTitle(line.title)
    decreases os
  {
    if os != [] {
      TitlesOf(os[0].parts, depth + 1);
      TitlesOf(os[1..], depth);
    }
  }

  /** Reading the lines of a dump back by their indentation rebuilds the tree. */
  lemma OutlineReadsBack(o: Outline)
    requires AllTitled([o])
    ensures ReadBack(Dump(o, 0)) == Some(o)
  {
    var lines := LinesOfAll([o], 0);
    assert LinesOfAll([], 0) == [] && [o][1..] == [];
    assert lines == LinesOf(o, 0);
    DumpIsLines(o, 0);
    TitlesOf([o], 0);
    LinesReadBack(lines);
    ForestReadsBack([o], 0, []);
    assert lines + [] == lines;
  }

  // ----- Titles -----------------------------------------------------------------------------------

  /** No node shows a value with a newline; the lexer lets none into a name or a string. */
  predicate OneLineValues(ts: seq<Tree>) {
    ts != [] ==>
      && (Shown(ts[0]).Some? ==> OneLine(Shown(ts[0]).value))
      && OneLineValues(ts[0].children) && OneLineValues(ts[1..])
  }

  lemma OneLineConcat(a: string, b: string)
    requires OneLine(a) && OneLine(b)
    ensures OneLine(a + b)
  {
  }

  lemma DigitsOneLine(n: nat)
    ensures OneLine(Digits(n, false))
  {
    DecimalIsDigits(n);
  }

  lemma EndOneLine(span: Span, shown: Option<string>)
    requires shown.Some? ==> OneLine(shown.value)
    ensures OneLine(EndText(span, shown))
  {
    DigitsOneLine(span.endLine);
    DigitsOneLine(span.endColumn);
    assert OneLine(ShownText(shown));
  }

  lemma SpanOneLine(span: Span, shown: Option<string>)
    requires shown.Some? ==> OneLine(shown.value)
    ensures OneLine(SpanText(span, shown))
  {
    DigitsOneLine(span.startLine);
    DigitsOneLine(span.startColumn);
    EndOneLine(span, shown);
    var end := EndText(span, shown);
    OneLineConcat(Digits(span.startColumn, false), end);
    OneLineConcat(":", Digits(span.startColumn, false) + end);
    OneLineConcat(Digits(span.startLine, false), ":" + (Digits(span.startColumn, false) + end));
    OneLineConcat("] <start:", Digits(span.startLine, false) + (":" + (Digits(span.startColumn, false) + end)));
  }

  lemma LabelIsTitle(t: Tree)
    requires Shown(t).Some? ==> OneLine(Shown(t).value)
    ensures IsTitle(Label(t))
  {
    DigitsOneLine(KindNumber(t.kind));
    SpanOneLine(t.span, Shown(t));
  }

  lemma {:induction false} LabelsAreTitles(ts: seq<Tree>)
    requires OneLineValues(ts)
    ensures AllTitled(OutlinesOf(ts))
    decreases ts
  {
    if ts != [] {
      LabelIsTitle(ts[0]);
      LabelsAreTitles(ts[0].children);
      LabelsAreTitles(ts[1..]);
      assert OutlinesOf(ts)[1..] == OutlinesOf(ts[1..]);
    }
  }

  /** Reading a dump back rebuilds the tree of what was printed. */
  lemma DumpReadsBack(t: Tree)
    requires OneLineValues([t])
    ensures ReadBack(DumpOf(t)) == Some(OutlineOf(t))
  {
    LabelsAreTitles([t]);
    assert OutlinesOf([t]) == [OutlineOf(t)];
    OutlineReadsBack(OutlineOf(t));
  }

  // ----- What a title says ------------------------------------------------------------------------

  predicate Delimited(s: string) {
    s != "" && !('0' <= s[0] <= '9')
  }

  lemma NumberCut(m: nat, n: nat, x: string, y: string)
    requires Delimited(x) && Delimited(y) && Digits(m, false) + x == Digits(n, false) + y
    ensures m == n && x == y
  {
    DecimalIsDigits(m);
    DecimalIsDigits(n);
    DigitsThenDelimiter(Digits(m, false), Digits(n, false), x, y);
    DigitsInjective(m, n, false);
  }

  lemma PrefixCut(before: string, x: string, y: string)
    requires before + x == before + y
    ensures x == y
  {
    assert x == (before + x)[|before|..] == (before + y)[|before|..] == y;
  }

  lemma SpanCut(a: Span, b: Span, x: Option<string>, y: Option<string>)
    requires SpanText(a, x) == SpanText(b, y)
    ensures a == b && ShownText(x) == ShownText(y)
  {
    var aa := Digits(a.startColumn, false) + EndText(a, x);
    var bb := Digits(b.startColumn, false) + EndText(b, y);
    PrefixCut("] <start:", Digits(a.startLine, false) + (":" + aa), Digits(b.startLine, false) + (":" + bb));
    NumberCut(a.startLine, b.startLine, ":" + aa, ":" + bb);
    PrefixCut(":", aa, bb);
    NumberCut(a.startColumn, b.startColumn, EndText(a, x), EndText(b, y));
    EndCut(a, b, x, y);
  }

  lemma EndCut(a: Span, b: Span, x: Option<string>, y: Option<string>)
    requires EndText(a, x) == EndText(b, y)
    ensures a.endLine == b.endLine && a.endColumn == b.endColumn && ShownText(x) == ShownText(y)
  {
    var aa := Digits(a.endColumn, false) + (">" + ShownText(x));
    var bb := Digits(b.endColumn, false) + (">" + ShownText(y));
    PrefixCut(", end:", Digits(a.endLine, false) + (":" + aa), Digits(b.endLine, false) + (":" + bb));
    NumberCut(a.endLine, b.endLine, ":" + aa, ":" + bb);
    PrefixCut(":", aa, bb);
    NumberCut(a.endColumn, b.endColumn, ">" + ShownText(x), ">" + ShownText(y));
    PrefixCut(">", ShownText(x), ShownText(y));
  }

  /** Nodes with the same title are of the same kind, at the same place, and show the same value. */
  lemma LabelDecides(t: Tree, u: Tree)
    requires Label(t) == Label(u)
    ensures t.kind == u.kind && t.span == u.span && Shown(t) == Shown(u)
  {
    var tt := KindName(t.kind) + SpanText(t.span, Shown(t));
    var uu := KindName(u.kind) + SpanText(u.span, Shown(u));
    PrefixCut("[", Digits(KindNumber(t.kind), false) + (":" + tt), Digits(KindNumber(u.kind), false) + (":" + uu));
    NumberCut(KindNumber(t.kind), KindNumber(u.kind), ":" + tt, ":" + uu);
    PrefixCut(":", tt, uu);
    PrefixCut(KindName(t.kind), SpanText(t.span, Shown(t)), SpanText(u.span, Shown(u)));
    SpanCut(t.span, u.span, Shown(t), Shown(u));
    if Shown(t).Some? {
      PrefixCut(" -- ", Shown(t).value, Shown(u).value);
    }
  }

  /** A printed number determines the number. */
  lemma IntTextDecides(m: int, n: int)
    requires IntText(m) == IntText(n)
    ensures m == n
  {
    DecimalIsDigits(if m < 0 then -m else m);
    DecimalIsDigits(if n < 0 then -n else n);
    assert IntText(m)[0] == IntText(n)[0];
    if m < 0 {
      PrefixCut("-", Digits(-m, false), Digits(-n, false));
      DigitsInjective(-m, -n, false);
    } else {
      DigitsInjective(m, n, false);
    }
  }

  /** The printed fields of a tree. */
  datatype Fields = Fields(kind: Kind, span: Span, shown: Option<string>, parts: seq<Fields>)

  function FieldsOf(t: Tree): Fields {
    Fields(t.kind, t.span, Shown(t), AllFieldsOf(t.children))
  }

  function AllFieldsOf(ts: seq<Tree>): seq<Fields> {
    if ts == [] then [] else [FieldsOf(ts[0])] + AllFieldsOf(ts[1..])
  }

  lemma {:induction false} OutlinesDecide(ts: seq<Tree>, us: seq<Tree>)
    requires OutlinesOf(ts) == OutlinesOf(us)
    ensures AllFieldsOf(ts) == AllFieldsOf(us)
    decreases ts
  {
    if ts != [] {
      assert OutlinesOf(ts)[0] == OutlinesOf(us)[0] && OutlinesOf(ts)[1..] == OutlinesOf(us)[1..];
      LabelDecides(ts[0], us[0]);
      OutlinesDecide(ts[0].children, us[0].children);
      OutlinesDecide(ts[1..], us[1..]);
    }
  }

  /** A dump determines the printed fields of its tree. */
  lemma DumpDecides(t: Tree, u: Tree)
    requires OneLineValues([t]) && OneLineValues([u]) && DumpOf(t) == DumpOf(u)
    ensures FieldsOf(t) == FieldsOf(u)
  {
    DumpReadsBack(t);
    DumpReadsBack(u);
    LabelDecides(t, u);
    OutlinesDecide(t.children, u.children);
  }

  // ----- What a dump says of the tree's own fields ---------------------------------------------------

  /** The line of a node up to its value. */
  function Stem(t: Tree): string {
    "[" + (Digits(KindNumber(t.kind), false) + (":" + (KindName(t.kind) + SpanText(t.span, None))))
  }

  predicate ShowsText(k: Kind) {
    || k == DECL || k == PARAM || k == LIBNAME || k == FILEPATH || k == VALSTR || k == QUALPATH || k == EXPRBASIC
    || k == ATTR
  }

  predicate ShowsNumber(k: Kind) {
    k == RUN || k == VALINT || k == TYPEQUALARR
  }

  /** A number in decimal, behind a dash if it is negative. */
  predicate IsDecimal(text: string, n: int) {
    if n < 0 then text == "-" + Digits(-n, false) else text == Digits(n, false)
  }

  lemma ValueBehind(stem: string, span: Span, value: string)
    ensures stem + SpanText(span, Some(value)) == stem + SpanText(span, None) + " -- " + value
  {
    assert ShownText(Some(value)) == " -- " + value && ">" + (" -- " + value) == (">" + "") + (" -- " + value);
    Behind(", end:", span.endLine, span.endColumn, ">" + "", " -- " + value);
    var none := EndText(span, None);
    assert EndText(span, Some(value)) == none + (" -- " + value);
    Behind("] <start:", span.startLine, span.startColumn, none, " -- " + value);
  }

  lemma Behind(word: string, a: nat, b: nat, x: string, y: string)
    ensures word + (Digits(a, false) + (":" + (Digits(b, false) + (x + y))))
         == word + (Digits(a, false) + (":" + (Digits(b, false) + x))) + y
  {
    assert Digits(b, false) + (x + y) == (Digits(b, false) + x) + y;
    assert ":" + ((Digits(b, false) + x) + y) == (":" + (Digits(b, false) + x)) + y;
  }

  /** Each line ends with its node's text, number or floating point value behind two dashes, and the others with the
      place. */
  lemma LineEnds(t: Tree)
    ensures Stem(t)[|Stem(t)| - 1] == '>'
    ensures ShowsText(t.kind) ==> Label(t) == Stem(t) + " -- " + t.text
    ensures ShowsNumber(t.kind) ==> exists text :: IsDecimal(text, t.number) && Label(t) == Stem(t) + " -- " + text
    ensures t.kind == VALFLOAT ==> Label(t) == Stem(t) + " -- " + t.decimal
    ensures !ShowsText(t.kind) && !ShowsNumber(t.kind) && t.kind != VALFLOAT ==> Label(t) == Stem(t)
  {
    StemEnds(t);
    if Shown(t).Some? { LabelIs(t, Shown(t).value); }
    assert ShowsNumber(t.kind) ==> IsDecimal(IntText(t.number), t.number);
  }

  lemma StemEnds(t: Tree)
    ensures Stem(t) != "" && Stem(t)[|Stem(t)| - 1] == '>'
  {
    var end := EndText(t.span, None);
    assert ShownText(None) == "" && end[|end| - 1] == '>';
    var span := SpanText(t.span, None);
    assert span[|span| - 1] == end[|end| - 1];
  }

  lemma LabelIs(t: Tree, value: string)
    requires Shown(t) == Some(value)
    ensures Label(t) == Stem(t) + " -- " + value
  {
    var head := "[" + (Digits(KindNumber(t.kind), false) + (":" + KindName(t.kind)));
    ValueBehind(head, t.span, value);
    HeadJoined(t, SpanText(t.span, Some(value)));
    HeadJoined(t, SpanText(t.span, None));
  }

  lemma HeadJoined(t: Tree, x: string)
    ensures "[" + (Digits(KindNumber(t.kind), false) + (":" + (KindName(t.kind) + x)))
         == "[" + (Digits(KindNumber(t.kind), false) + (":" + KindName(t.kind))) + x
  {
    assert ":" + (KindName(t.kind) + x) == (":" + KindName(t.kind)) + x;
    var number := Digits(KindNumber(t.kind), false);
    assert number + ((":" + KindName(t.kind)) + x) == (number + (":" + KindName(t.kind))) + x;
  }

  /** Two trees agree in kinds, places and every field that the source prints. */
  predicate SameFields(t: Tree, u: Tree)
    decreases t, 0
  {
    && t.kind == u.kind && t.span == u.span
    && (ShowsText(t.kind) ==> t.text == u.text)
    && (ShowsNumber(t.kind) ==> t.number == u.number)
    && (t.kind == VALFLOAT ==> t.decimal == u.decimal)
    && AllSameFields(t.children, u.children)
  }

  predicate AllSameFields(ts: seq<Tree>, us: seq<Tree>)
    decreases ts, 1
  {
    |ts| == |us| && (ts != [] ==> SameFields(ts[0], us[0]) && AllSameFields(ts[1..], us[1..]))
  }

  lemma LineDecides(t: Tree, u: Tree)
    requires Label(t) == Label(u)
    ensures t.kind == u.kind && t.span == u.span
    ensures ShowsText(t.kind) ==> t.text == u.text
    ensures ShowsNumber(t.kind) ==> t.number == u.number
    ensures t.kind == VALFLOAT ==> t.decimal == u.decimal
  {
    LabelDecides(t, u);
    if ShowsNumber(t.kind) { IntTextDecides(t.number, u.number); }
  }

  lemma {:induction false} OutlinesDecideFields(ts: seq<Tree>, us: seq<Tree>)
    requires OutlinesOf(ts) == OutlinesOf(us)
    ensures AllSameFields(ts, us)
    decreases ts
  {
    if ts != [] {
      assert OutlinesOf(ts)[0] == OutlinesOf(us)[0] && OutlinesOf(ts)[1..] == OutlinesOf(us)[1..];
      LineDecides(ts[0], us[0]);
      OutlinesDecideFields(ts[0].children, us[0].children);
      OutlinesDecideFields(ts[1..], us[1..]);
    }
  }

  /** Trees with the same dump agree in every field that the source prints. */
  lemma DumpDecidesFields(t: Tree, u: Tree)
    requires OneLineValues([t]) && OneLineValues([u]) && DumpOf(t) == DumpOf(u)
    ensures SameFields(t, u)
  {
    DumpReadsBack(t);
    DumpReadsBack(u);
    LineDecides(t, u);
    OutlinesDecideFields(t.children, u.children);
  }

  lemma Regroup(a: string, b: string, c: string)
    ensures a + (b + c) == a + b + c
  {
  }

  lemma RegroupFour(a: string, b: string, c: string, d: string, e: string)
    ensures a + (b + (c + (d + e))) == a + b + c + d + e
  {
    Regroup(c, d, e);
    Regroup(b, c + d, e);
    Regroup(b, c, d);
    Regroup(a, b + c + d, e);
    Regroup(a, b + c, d);
    Regroup(a, b, c);
  }

  /** A line has the kind's number and name and where the node begins and ends. */
  lemma LineFormat(t: Tree)
    ensures var span := t.span;
            Stem(t) == "[" + Digits(KindNumber(t.kind), false) + ":" + KindName(t.kind)
                       + ("] <start:" + Digits(span.startLine, false) + ":" + Digits(span.startColumn, false)
                          + (", end:" + Digits(span.endLine, false) + ":" + Digits(span.endColumn, false) + ">"))
  {
    var span := t.span;
    assert ">" + ShownText(None) == ">";
    RegroupFour(", end:", Digits(span.endLine, false), ":", Digits(span.endColumn, false), ">");
    RegroupFour("] <start:", Digits(span.startLine, false), ":", Digits(span.startColumn, false), EndText(span, None));
    RegroupFour("[", Digits(KindNumber(t.kind), false), ":", KindName(t.kind), SpanText(span, None));
  }

  /** One-line values have to be asked for, which the scanner makes sure of: were there a newline in a value, a leaf
      could look like a node with a child. */
  lemma NewlineConfuses(span: Span, text: string, child: Tree)
    requires child.children == []
    ensures var leaf := Tree(VALSTR, span, text + ("\n-" + Label(child)), 0, "", []);
            var parent := Tree(VALSTR, span, text, 0, "", [child]);
            DumpOf(leaf) == DumpOf(parent) && FieldsOf(leaf) != FieldsOf(parent)
  {
    var leaf := Tree(VALSTR, span, text + ("\n-" + Label(child)), 0, "", []);
    var parent := Tree(VALSTR, span, text, 0, "", [child]);
    LongerLabel(span, text, "\n-" + Label(child), leaf, parent);
    SmallOutlines(leaf, parent, child);
    LeafUnderParent(Label(parent), Label(child));
  }

  lemma SmallOutlines(leaf: Tree, parent: Tree, child: Tree)
    requires leaf.children == child.children == [] && parent.children == [child]
    ensures OutlineOf(leaf) == Outline(Label(leaf), [])
    ensures OutlineOf(parent) == Outline(Label(parent), [Outline(Label(child), [])])
    ensures FieldsOf(leaf) != FieldsOf(parent)
  {
    assert OutlinesOf([child]) == [OutlineOf(child)];
    assert FieldsOf(leaf).parts == [] && |FieldsOf(parent).parts| == 1;
  }

  lemma LongerLabel(span: Span, text: string, more: string, t: Tree, u: Tree)
    requires t.kind == u.kind == VALSTR && t.span == u.span == span && t.text == text + more && u.text == text
    ensures Label(t) == Label(u) + more
  {
    var name, number := KindName(VALSTR), Digits(KindNumber(VALSTR), false);
    var x, y := Some(text), Some(text + more);
    assert Shown(t) == y && Shown(u) == x;
    LongerSpan(span, text, more);
    Joined(name, SpanText(span, x), more);
    Joined(":", name + SpanText(span, x), more);
    Joined(number, ":" + (name + SpanText(span, x)), more);
    Joined("[", number + (":" + (name + SpanText(span, x))), more);
  }

  lemma LongerSpan(span: Span, text: string, more: string)
    ensures SpanText(span, Some(text + more)) == SpanText(span, Some(text)) + more
  {
    var x, line, column := Some(text), Digits(span.startLine, false), Digits(span.startColumn, false);
    LongerEnd(span, text, more);
    Joined(column, EndText(span, x), more);
    Joined(":", column + EndText(span, x), more);
    Joined(line, ":" + (column + EndText(span, x)), more);
    Joined("] <start:", line + (":" + (column + EndText(span, x))), more);
  }

  lemma LongerEnd(span: Span, text: string, more: string)
    ensures EndText(span, Some(text + more)) == EndText(span, Some(text)) + more
  {
    var x, line, column := ShownText(Some(text)), Digits(span.endLine, false), Digits(span.endColumn, false);
    Joined(" -- ", text, more);
    Joined(">", x, more);
    Joined(column, ">" + x, more);
    Joined(":", column + (">" + x), more);
    Joined(line, ":" + (column + (">" + x)), more);
    Joined(", end:", line + (":" + (column + (">" + x))), more);
  }

  lemma LeafUnderParent(title: string, below: string)
    ensures Dump(Outline(title + ("\n-" + below), []), 0) == Dump(Outline(title, [Outline(below, [])]), 0)
  {
    assert [Outline(below, [])][1..] == [];
    assert Dump(Outline(below, []), 1) == "-" + below + "\n";
    assert DumpAll([Outline(below, [])], 1) == "-" + below + "\n";
  }
}
