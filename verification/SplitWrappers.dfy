/** The awk program of ci-scripts/split-wrappers.sh: a file of marked regions is cut into one part per MPI_ region, one
    more part for all other regions, and a prologue that every part begins with. */
module SplitWrappers {
  import opened Options

  // ----- lines

  const BEGIN := "MPIF-SPLIT-BEGIN "
  const END := "MPIF-SPLIT-END"

  predicate OccursAt(s: string, pattern: string, i: int) {
    0 <= i <= |s| - |pattern| && s[i..i + |pattern|] == pattern
  }

  predicate Contains(s: string, pattern: string) {
    exists i :: 0 <= i <= |s| - |pattern| && OccursAt(s, pattern, i)
  }

  predicate IsSpace(c: char) {
    c == ' ' || c == '\t'
  }

  function TrimRight(s: string): string {
    if s != [] && IsSpace(s[|s| - 1]) then TrimRight(s[..|s| - 1]) else s
  }

  function LastWord(s: string): string {
    if s == [] || IsSpace(s[|s| - 1]) then [] else LastWord(s[..|s| - 1]) + [s[|s| - 1]]
  }

  predicate IsUpper(c: char) {
    'A' <= c <= 'Z'
  }

  function Lower(c: char): char {
    if IsUpper(c) then c - 'A' + 'a' else c
  }

  function ToLower(s: string): string {
    seq(|s|, i requires 0 <= i < |s| => Lower(s[i]))
  }

  /** The last field of a line. */
  function LastField(line: string): string {
    LastWord(TrimRight(line))
  }

  /** The region's name in lower case. */
  function RegionName(begin: string): string {
    ToLower(LastField(begin))
  }

  /** The same letter, or one and the same in upper and in lower case. */
  predicate SameLetter(c: char, d: char) {
    c == d || (IsUpper(c) && d == Lower(c)) || (IsUpper(d) && c == Lower(d))
  }

  predicate SameButForCase(a: string, b: string) {
    |a| == |b| && forall i :: 0 <= i < |a| ==> SameLetter(a[i], b[i])
  }

  lemma ToLowerIff(a: string, b: string)
    ensures ToLower(a) == ToLower(b) <==> SameButForCase(a, b)
  {
    if ToLower(a) == ToLower(b) {
      forall i | 0 <= i < |a|
        ensures SameLetter(a[i], b[i])
      {
        assert ToLower(a)[i] == ToLower(b)[i];
      }
    }
    if SameButForCase(a, b) {
      forall i | 0 <= i < |a|
        ensures ToLower(a)[i] == ToLower(b)[i]
      {
        assert SameLetter(a[i], b[i]);
      }
    }
  }

  /** A line as the program sees it: a region's beginning, with the region's name; a region's end; blank; or code. */
  datatype Line =
    | BeginLine(text: string, name: string)
    | EndLine(text: string)
    | BlankLine(text: string)
    | CodeLine(text: string)

  /** A line with both markers is a beginning, which is looked for first. */
  function Classify(text: string): (line: Line)
    ensures line.text == text
  {
    if Contains(text, BEGIN) then BeginLine(text, RegionName(text))
    else if Contains(text, END) then EndLine(text)
    else if forall i :: 0 <= i < |text| ==> IsSpace(text[i]) then BlankLine(text)
    else CodeLine(text)
  }

  function ClassifyAll(texts: seq<string>): seq<Line> {
    seq(|texts|, i requires 0 <= i < |texts| => Classify(texts[i]))
  }

  predicate IsPlain(line: Line) {
    line.BlankLine? || line.CodeLine?
  }

  predicate IsMpi(name: string) {
    "mpi_" <= name
  }

  // ----- what the lines are, said of the text

  predicate Blanks(s: string) {
    forall i :: 0 <= i < |s| ==> s[i] == ' ' || s[i] == '\t'
  }

  predicate NoBlank(s: string) {
    forall i :: 0 <= i < |s| ==> s[i] != ' ' && s[i] != '\t'
  }

  lemma {:induction false} TrimsBlanks(s: string, blanks: string)
    requires Blanks(blanks) && (s == [] || !IsSpace(s[|s| - 1]))
    ensures TrimRight(s + blanks) == s
  {
    if blanks == [] {
      assert s + blanks == s;
    } else {
      var last := |blanks| - 1;
      assert (s + blanks)[..|s| + last] == s + blanks[..last];
      TrimsBlanks(s, blanks[..last]);
    }
  }

  lemma {:induction false} FindsLastWord(before: string, field: string)
    requires NoBlank(field) && (before == [] || IsSpace(before[|before| - 1]))
    ensures LastWord(before + field) == field
  {
    if field == [] {
      assert before + field == before;
    } else {
      var last := |field| - 1;
      assert (before + field)[..|before| + last] == before + field[..last];
      FindsLastWord(before, field[..last]);
      assert field == field[..last] + [field[last]];
    }
  }

  /** The last field is what stands between the last blanks but those at the end, and these. */
  lemma LastFieldIs(before: string, field: string, blanks: string)
    requires field != [] && NoBlank(field) && Blanks(blanks)
    requires before != [] ==> before[|before| - 1] == ' ' || before[|before| - 1] == '\t'
    ensures LastField((before + field) + blanks) == field
  {
    var s := before + field;
    assert s[|s| - 1] == field[|field| - 1];
    TrimsBlanks(s, blanks);
    FindsLastWord(before, field);
  }

  ghost predicate Cuts(text: string, before: string, pattern: string, after: string) {
    text == before + (pattern + after)
  }

  lemma ContainsIff(text: string, pattern: string)
    ensures Contains(text, pattern) <==> exists before, after :: Cuts(text, before, pattern, after)
  {
    if Contains(text, pattern) {
      var i :| 0 <= i <= |text| - |pattern| && OccursAt(text, pattern, i);
      assert Cuts(text, text[..i], pattern, text[i + |pattern|..]);
    }
    if before, after :| Cuts(text, before, pattern, after) {
      assert text[|before|..|before| + |pattern|] == pattern;
      assert OccursAt(text, pattern, |before|);
    }
  }

  /** What a line is, by the marker in it or the lack of one; and a region's name is its first line's last field with
      each capital letter made small. */
  lemma ClassifyIs(text: string)
    ensures var begin, end := exists b, a :: Cuts(text, b, "MPIF-SPLIT-BEGIN ", a), exists b, a :: Cuts(text, b, "MPIF-SPLIT-END", a);
            && (Classify(text).BeginLine? <==> begin)
            && (Classify(text).EndLine? <==> !begin && end)
            && (Classify(text).BlankLine? <==> !begin && !end && Blanks(text))
            && (Classify(text).CodeLine? <==> !begin && !end && !Blanks(text))
    ensures Classify(text).BeginLine? ==>
              var name, field := Classify(text).name, LastField(text);
              |name| == |field| && forall i :: 0 <= i < |field| ==>
                name[i] == if 'A' <= field[i] <= 'Z' then field[i] - 'A' + 'a' else field[i]
  {
    ContainsIff(text, "MPIF-SPLIT-BEGIN ");
    ContainsIff(text, "MPIF-SPLIT-END");
  }

  /** Which regions get a part of their own: those whose name begins with MPI_, in capitals or not. */
  lemma IsMpiIff(field: string)
    ensures IsMpi(ToLower(field)) <==>
              |field| >= 4 && field[0] in "mM" && field[1] in "pP" && field[2] in "iI" && field[3] == '_'
  {
    var name := ToLower(field);
    if |field| >= 4 {
      assert name[..4] == [name[0], name[1], name[2], name[3]];
      assert "mpi_" == ['m', 'p', 'i', '_'];
      assert "mpi_" <= name <==> name[..4] == "mpi_";
    }
  }

  // ----- documents

  /** What a marked file consists of. */
  datatype Item = Outside(line: Line) | Region(begin: Line, body: seq<Line>, end: Line)

  function Lines(item: Item): seq<Line> {
    match item
    case Outside(line) => [line]
    case Region(begin, body, end) => [begin] + body + [end]
  }

  function Flatten(doc: seq<Item>): seq<Line> {
    if doc == [] then [] else Flatten(doc[..|doc| - 1]) + Lines(doc[|doc| - 1])
  }

  ghost predicate AllPlain(lines: seq<Line>) {
    forall k :: 0 <= k < |lines| ==> IsPlain(lines[k])
  }

  ghost predicate ItemOk(item: Item) {
    match item
    case Outside(line) => IsPlain(line)
    case Region(begin, body, end) => begin.BeginLine? && end.EndLine? && AllPlain(body)
  }

  ghost predicate WellFormed(doc: seq<Item>) {
    forall k :: 0 <= k < |doc| ==> ItemOk(doc[k])
  }

  /** The first pass's depth, one line on; None once it has refused. */
  function DepthStep(before: Option<nat>, line: Line): Option<nat> {
    if before == None then None
    else if line.BeginLine? then (if before.value == 0 then Some(1) else None)
    else if line.EndLine? then (if before.value == 1 then Some(0) else None)
    else before
  }

  function Depth(lines: seq<Line>): Option<nat> {
    if lines == [] then Some(0) else DepthStep(Depth(lines[..|lines| - 1]), lines[|lines| - 1])
  }

  /** A region whose end has not come yet. */
  datatype Open = Open(begin: Line, body: seq<Line>)

  /** The items so far, and the region that is open, if any. */
  datatype Parsed = Parsed(doc: seq<Item>, open: Option<Open>)

  function ParseStep(p: Parsed, line: Line): Parsed {
    if line.BeginLine? then p.(open := Some(Open(line, [])))
    else
      match p.open
      case None => p.(doc := p.doc + [Outside(line)])
      case Some(r) =>
        if line.EndLine? then Parsed(p.doc + [Region(r.begin, r.body, line)], None)
        else p.(open := Some(Open(r.begin, r.body + [line])))
  }

  function Parse(lines: seq<Line>): Parsed {
    if lines == [] then Parsed([], None) else ParseStep(Parse(lines[..|lines| - 1]), lines[|lines| - 1])
  }

  function OpenLines(open: Option<Open>): seq<Line> {
    match open
    case None => []
    case Some(r) => [r.begin] + r.body
  }

  /** A parse accounts for the lines, and has a region open exactly at depth 1. */
  ghost predicate ParsesTo(lines: seq<Line>, p: Parsed, depth: Option<nat>) {
    && WellFormed(p.doc) && Flatten(p.doc) + OpenLines(p.open) == lines
    && depth == Some(if p.open == None then 0 else 1)
    && (p.open.Some? ==> p.open.value.begin.BeginLine? && AllPlain(p.open.value.body))
  }

  lemma Associative(a: seq<Line>, b: seq<Line>, c: seq<Line>)
    ensures (a + b) + c == a + (b + c)
  {
  }

  lemma AppendInitLast(lines: seq<Line>, body: seq<Line>)
    requires body != []
    ensures lines + body == (lines + body[..|body| - 1]) + [body[|body| - 1]]
  {
  }

  lemma AppendRegion(lines: seq<Line>, begin: Line, body: seq<Line>, end: Line)
    ensures lines + Lines(Region(begin, body, end)) == ((lines + [begin]) + body) + [end]
  {
  }

  lemma FlattenLast(doc: seq<Item>, item: Item)
    ensures Flatten(doc + [item]) == Flatten(doc) + Lines(item)
  {
  }

  /** Outside every region. */
  lemma ParseOutside(lines: seq<Line>, p: Parsed, line: Line)
    requires ParsesTo(lines, p, Some(0)) && IsPlain(line)
    ensures ParsesTo(lines + [line], ParseStep(p, line), Some(0))
  {
  }

  lemma ParseBegin(lines: seq<Line>, p: Parsed, line: Line)
    requires ParsesTo(lines, p, Some(0)) && line.BeginLine?
    ensures ParsesTo(lines + [line], ParseStep(p, line), Some(1))
  {
  }

  /** In a region. */
  lemma ParseInside(lines: seq<Line>, p: Parsed, line: Line)
    requires ParsesTo(lines, p, Some(1)) && IsPlain(line)
    ensures ParsesTo(lines + [line], ParseStep(p, line), Some(1))
  {
  }

  lemma ParseEnd(lines: seq<Line>, p: Parsed, line: Line)
    requires ParsesTo(lines, p, Some(1)) && line.EndLine?
    ensures ParsesTo(lines + [line], ParseStep(p, line), Some(0))
  {
  }

  lemma ParseStepRight(lines: seq<Line>, p: Parsed, depth: Option<nat>, line: Line)
    requires ParsesTo(lines, p, depth) && DepthStep(depth, line).Some?
    ensures ParsesTo(lines + [line], ParseStep(p, line), DepthStep(depth, line))
  {
    if line.BeginLine? {
      ParseBegin(lines, p, line);
    } else if p.open == None {
      ParseOutside(lines, p, line);
    } else if line.EndLine? {
      ParseEnd(lines, p, line);
    } else {
      ParseInside(lines, p, line);
    }
  }

  lemma ParseNothing()
    ensures ParsesTo([], Parse([]), Depth([]))
  {
  }

  /** A line sequence of balanced markers, as far as it goes, is the flattening of its parse. */
  lemma {:induction false} ParseRight(lines: seq<Line>)
    requires Depth(lines).Some?
    ensures ParsesTo(lines, Parse(lines), Depth(lines))
  {
    if lines == [] {
      ParseNothing();
    } else {
      var init, line := lines[..|lines| - 1], lines[|lines| - 1];
      assert lines == init + [line];
      ParseRight(init);
      ParseStepRight(init, Parse(init), Depth(init), line);
    }
  }

  lemma DepthLast(lines: seq<Line>, line: Line)
    ensures Depth(lines + [line]) == DepthStep(Depth(lines), line)
  {
  }

  lemma {:induction false} DepthPlain(lines: seq<Line>, body: seq<Line>)
    requires AllPlain(body)
    ensures Depth(lines + body) == Depth(lines)
  {
    if body == [] {
      assert lines + body == lines;
    } else {
      var init, last := body[..|body| - 1], body[|body| - 1];
      DepthPlain(lines, init);
      AppendInitLast(lines, body);
      DepthLast(lines + init, last);
    }
  }

  lemma {:induction false} DepthFlatten(doc: seq<Item>)
    requires WellFormed(doc)
    ensures Depth(Flatten(doc)) == Some(0)
  {
    if doc != [] {
      var init, item := doc[..|doc| - 1], doc[|doc| - 1];
      DepthFlatten(init);
      assert ItemOk(item);
      if item.Outside? {
        DepthLast(Flatten(init), item.line);
      } else {
        DepthRegion(Flatten(init), item.begin, item.body, item.end);
      }
    }
  }

  lemma DepthRegion(lines: seq<Line>, begin: Line, body: seq<Line>, end: Line)
    requires Depth(lines) == Some(0) && begin.BeginLine? && end.EndLine? && AllPlain(body)
    ensures Depth(lines + Lines(Region(begin, body, end))) == Some(0)
  {
    DepthLast(lines, begin);
    DepthPlain(lines + [begin], body);
    DepthLast((lines + [begin]) + body, end);
    AppendRegion(lines, begin, body, end);
  }

  /** The first pass accepts exactly the files whose markers alternate, beginning and end, and end closed. */
  lemma AcceptedIffDocument(lines: seq<Line>)
    ensures Depth(lines) == Some(0) <==> exists doc :: WellFormed(doc) && Flatten(doc) == lines
  {
    if Depth(lines) == Some(0) {
      ParseRight(lines);
      assert Flatten(Parse(lines).doc) + [] == Flatten(Parse(lines).doc);
      assert WellFormed(Parse(lines).doc) && Flatten(Parse(lines).doc) == lines;
    }
    if doc :| WellFormed(doc) && Flatten(doc) == lines {
      DepthFlatten(doc);
    }
  }

  lemma ParseLast(lines: seq<Line>, line: Line)
    ensures Parse(lines + [line]) == ParseStep(Parse(lines), line)
  {
  }

  lemma {:induction false} ParseBody(lines: seq<Line>, doc: seq<Item>, begin: Line, body: seq<Line>)
    requires Parse(lines) == Parsed(doc, Some(Open(begin, []))) && AllPlain(body)
    ensures Parse(lines + body) == Parsed(doc, Some(Open(begin, body)))
  {
    if body == [] {
      assert lines + body == lines;
    } else {
      var init, last := body[..|body| - 1], body[|body| - 1];
      ParseBody(lines, doc, begin, init);
      AppendInitLast(lines, body);
      ParseLast(lines + init, last);
      assert init + [last] == body;
    }
  }

  lemma ParseRegion(lines: seq<Line>, doc: seq<Item>, begin: Line, body: seq<Line>, end: Line)
    requires Parse(lines) == Parsed(doc, None) && begin.BeginLine? && end.EndLine? && AllPlain(body)
    ensures Parse(lines + Lines(Region(begin, body, end))) == Parsed(doc + [Region(begin, body, end)], None)
  {
    ParseLast(lines, begin);
    ParseBody(lines + [begin], doc, begin, body);
    ParseLast((lines + [begin]) + body, end);
    AppendRegion(lines, begin, body, end);
  }

  lemma ParseItem(lines: seq<Line>, doc: seq<Item>, item: Item)
    requires Parse(lines) == Parsed(doc, None) && ItemOk(item)
    ensures Parse(lines + Lines(item)) == Parsed(doc + [item], None)
  {
    match item
    case Outside(line) => ParseLast(lines, line);
    case Region(begin, body, end) => ParseRegion(lines, doc, begin, body, end);
  }

  lemma ParseFlattenLast(doc: seq<Item>, item: Item)
    requires Parse(Flatten(doc)) == Parsed(doc, None) && ItemOk(item)
    ensures Parse(Flatten(doc + [item])) == Parsed(doc + [item], None)
  {
    FlattenLast(doc, item);
    ParseItem(Flatten(doc), doc, item);
  }

  /** Parsing is the inverse of flattening: no two documents have the same lines. */
  lemma {:induction false} ParseFlatten(doc: seq<Item>)
    requires WellFormed(doc)
    ensures Parse(Flatten(doc)) == Parsed(doc, None)
  {
    if doc == [] {
      assert Flatten(doc) == [];
    } else {
      var init, item := doc[..|doc| - 1], doc[|doc| - 1];
      assert doc == init + [item];
      ParseFlatten(init);
      ParseFlattenLast(init, item);
    }
  }

  // ----- what the parts should be

  function OutsideLines(doc: seq<Item>): seq<Line> {
    if doc == [] then []
    else if doc[|doc| - 1].Outside? then OutsideLines(doc[..|doc| - 1]) + [doc[|doc| - 1].line]
    else OutsideLines(doc[..|doc| - 1])
  }

  predicate EndsBlank(lines: seq<Line>) {
    lines != [] && lines[|lines| - 1].BlankLine?
  }

  /** The lines with each run of blank ones cut to its first. */
  function Collapse(lines: seq<Line>): seq<Line> {
    if lines == [] then []
    else
      var init, line := lines[..|lines| - 1], lines[|lines| - 1];
      if line.BlankLine? && EndsBlank(init) then Collapse(init) else Collapse(init) + [line]
  }

  function NotBlank(lines: seq<Line>): seq<Line> {
    if lines == [] then []
    else if lines[|lines| - 1].BlankLine? then NotBlank(lines[..|lines| - 1])
    else NotBlank(lines[..|lines| - 1]) + [lines[|lines| - 1]]
  }

  lemma NotBlankLast(lines: seq<Line>, line: Line)
    ensures NotBlank(lines + [line]) == if line.BlankLine? then NotBlank(lines) else NotBlank(lines) + [line]
  {
  }

  /** Collapsing loses no line that is not blank, leaves no two blank lines together, and loses the blank lines of no
      run altogether. */
  lemma {:induction false} CollapseRight(lines: seq<Line>)
    ensures NotBlank(Collapse(lines)) == NotBlank(lines)
    ensures forall i :: 0 < i < |Collapse(lines)| ==> !(Collapse(lines)[i - 1].BlankLine? && Collapse(lines)[i].BlankLine?)
    ensures EndsBlank(Collapse(lines)) <==> EndsBlank(lines)
  {
    if lines != [] {
      var init, line := lines[..|lines| - 1], lines[|lines| - 1];
      CollapseRight(init);
      NotBlankLast(Collapse(init), line);
    }
  }

  datatype File = File(path: string, lines: seq<Line>)

  /** Where the parts go. */
  datatype Names = Names(outdir: string, prefix: string, ext: string) {
    function Path(name: string): string {
      outdir + "/" + prefix + "_" + name + ext
    }
  }

  predicate IsPart(item: Item) {
    item.Region? && item.begin.BeginLine? && IsMpi(item.begin.name)
  }

  /** One part per MPI_ region, in order: the prologue, then the region. */
  function Parts(names: Names, prologue: seq<Line>, doc: seq<Item>): seq<File> {
    if doc == [] then []
    else
      var item := doc[|doc| - 1];
      var before := Parts(names, prologue, doc[..|doc| - 1]);
      if IsPart(item) then before + [File(names.Path(item.begin.name), prologue + item.body)] else before
  }

  /** The other regions, one after the other. */
  function RestLines(doc: seq<Item>): seq<Line> {
    if doc == [] then []
    else
      var item := doc[|doc| - 1];
      if item.Region? && !IsPart(item) then RestLines(doc[..|doc| - 1]) + item.body else RestLines(doc[..|doc| - 1])
  }

  function Rest(names: Names, prologue: seq<Line>, doc: seq<Item>): File {
    File(names.Path("rest"), prologue + RestLines(doc))
  }

  /** Parts and rest are made item by item, in order: a region is one part, of its name's path, with the prologue before
      its body; or its body is the next piece of the rest; a line outside is neither. */
  lemma PartsOfOne(names: Names, prologue: seq<Line>, item: Item)
    requires item.Region? ==> item.begin.BeginLine?
    ensures item.Outside? ==>
              Parts(names, prologue, [item]) == [] && RestLines([item]) == [] && OutsideLines([item]) == [item.line]
    ensures item.Region? && "mpi_" <= item.begin.name ==>
              && Parts(names, prologue, [item])
              == [File(names.outdir + "/" + names.prefix + "_" + item.begin.name + names.ext, prologue + item.body)]
              && RestLines([item]) == [] && OutsideLines([item]) == []
    ensures item.Region? && !("mpi_" <= item.begin.name) ==>
              Parts(names, prologue, [item]) == [] && RestLines([item]) == item.body && OutsideLines([item]) == []
  {
    assert [item][..0] == [];
    assert RestLines([item][..0]) == [] && OutsideLines([item][..0]) == [];
  }

  lemma {:induction false} PartsConcat(names: Names, prologue: seq<Line>, a: seq<Item>, b: seq<Item>)
    ensures Parts(names, prologue, a + b) == Parts(names, prologue, a) + Parts(names, prologue, b)
  {
    if b == [] {
      assert a + b == a;
    } else {
      var init, item := b[..|b| - 1], b[|b| - 1];
      PartsConcat(names, prologue, a, init);
      assert a + b == (a + init) + [item] && b == init + [item];
      PartsLast(names, prologue, a + init, item);
      PartsLast(names, prologue, init, item);
    }
  }

  lemma {:induction false} RestConcat(a: seq<Item>, b: seq<Item>)
    ensures RestLines(a + b) == RestLines(a) + RestLines(b)
  {
    if b == [] {
      assert a + b == a;
    } else {
      var init, item := b[..|b| - 1], b[|b| - 1];
      RestConcat(a, init);
      assert (a + b)[..|a + b| - 1] == a + init;
      if item.Region? {
        Associative(RestLines(a), RestLines(init), item.body);
      }
    }
  }

  lemma {:induction false} OutsideConcat(a: seq<Item>, b: seq<Item>)
    ensures OutsideLines(a + b) == OutsideLines(a) + OutsideLines(b)
  {
    if b == [] {
      assert a + b == a;
    } else {
      var init, item := b[..|b| - 1], b[|b| - 1];
      OutsideConcat(a, init);
      assert (a + b)[..|a + b| - 1] == a + init;
    }
  }

  lemma PartsOfConcat(names: Names, prologue: seq<Line>, a: seq<Item>, b: seq<Item>)
    ensures Parts(names, prologue, a + b) == Parts(names, prologue, a) + Parts(names, prologue, b)
    ensures RestLines(a + b) == RestLines(a) + RestLines(b)
    ensures OutsideLines(a + b) == OutsideLines(a) + OutsideLines(b)
  {
    PartsConcat(names, prologue, a, b);
    RestConcat(a, b);
    OutsideConcat(a, b);
  }

  ghost predicate PathsDiffer(files: seq<File>) {
    forall i, j :: 0 <= i < j < |files| ==> files[i].path != files[j].path
  }

  // ----- the program

  datatype Error =
    | NestedBegin(line: nat)
    | EndWithoutBegin(line: nat)
    | Unterminated
    | SamePath(path: string)
    | NoMarkers

  datatype Result<T> = Ok(value: T) | Err(error: Error)

  lemma {:induction false} RefusedStaysRefused(lines: seq<Line>, i: nat)
    requires i <= |lines| && Depth(lines[..i]) == None
    ensures Depth(lines) == None
  {
    if i == |lines| {
      assert lines[..i] == lines;
    } else {
      assert lines[..|lines| - 1][..i] == lines[..i];
      RefusedStaysRefused(lines[..|lines| - 1], i);
    }
  }

  /** One more line has been looked at. */
  lemma Prefix(lines: seq<Line>, i: nat)
    requires i < |lines|
    ensures Depth(lines[..i + 1]) == DepthStep(Depth(lines[..i]), lines[i])
    ensures Parse(lines[..i + 1]) == ParseStep(Parse(lines[..i]), lines[i])
  {
    assert lines[..i + 1] == lines[..i] + [lines[i]];
    DepthLast(lines[..i], lines[i]);
    ParseLast(lines[..i], lines[i]);
  }

  lemma OutsideLast(doc: seq<Item>, item: Item)
    ensures OutsideLines(doc + [item]) == if item.Outside? then OutsideLines(doc) + [item.line] else OutsideLines(doc)
  {
  }

  lemma CollapseLast(lines: seq<Line>, line: Line)
    ensures Collapse(lines + [line])
         == if line.BlankLine? && EndsBlank(lines) then Collapse(lines) else Collapse(lines) + [line]
  {
  }

  /** What the first pass says is wrong: a region begun in a region, one ended outside of any, or one not ended. */
  predicate Misplaced(error: Error, lines: seq<Line>) {
    match error
    case NestedBegin(k) => k < |lines| && lines[k].BeginLine? && Depth(lines[..k]) == Some(1)
    case EndWithoutBegin(k) => k < |lines| && lines[k].EndLine? && Depth(lines[..k]) == Some(0)
    case Unterminated => Depth(lines) == Some(1)
    case SamePath(_) => false
    case NoMarkers => false
  }

  /** What the first pass has made of the lines so far. */
  ghost predicate Scanned(p: Parsed, depth: int, blank: int, prologue: seq<Line>) {
    && depth == (if p.open == None then 0 else 1)
    && prologue == Collapse(OutsideLines(p.doc))
    && blank >= 0 && (blank > 0 <==> EndsBlank(OutsideLines(p.doc)))
  }

  /** A line outside every region, accounted for. */
  lemma ScannedOutside(p: Parsed, blank: int, prologue: seq<Line>, line: Line)
    requires Scanned(p, 0, blank, prologue) && IsPlain(line)
    ensures if !line.BlankLine? then Scanned(ParseStep(p, line), 0, 0, prologue + [line])
            else if blank == 0 then Scanned(ParseStep(p, line), 0, 1, prologue + [line])
            else Scanned(ParseStep(p, line), 0, blank + 1, prologue)
  {
    OutsideLast(p.doc, Outside(line));
    CollapseLast(OutsideLines(p.doc), line);
  }

  /** Any other line. */
  lemma ScannedOther(p: Parsed, depth: int, blank: int, prologue: seq<Line>, line: Line)
    requires Scanned(p, depth, blank, prologue)
    ensures line.BeginLine? && depth == 0 ==> Scanned(ParseStep(p, line), 1, blank, prologue)
    ensures line.EndLine? && depth == 1 ==> Scanned(ParseStep(p, line), 0, blank, prologue)
    ensures IsPlain(line) && depth == 1 ==> Scanned(ParseStep(p, line), 1, blank, prologue)
  {
    if line.EndLine? && depth == 1 {
      OutsideLast(p.doc, Region(p.open.value.begin, p.open.value.body, line));
    }
  }

  /** The first pass: refuse misplaced markers, and collect the prologue. */
  method FirstPass(texts: seq<string>) returns (r: Result<seq<Line>>)
    ensures r.Ok? <==> Depth(ClassifyAll(texts)) == Some(0)
    ensures r.Ok? ==> r.value == Collapse(OutsideLines(Parse(ClassifyAll(texts)).doc))
    ensures r.Err? ==> Misplaced(r.error, ClassifyAll(texts))
  {
    ghost var lines := ClassifyAll(texts);
    var depth, blank, prologue: seq<Line>, i := 0, 0, [], 0;
    while i < |texts|
      invariant 0 <= i <= |texts| && Depth(lines[..i]) == Some(depth) && depth <= 1
      invariant Scanned(Parse(lines[..i]), depth, blank, prologue)
    {
      var line := Classify(texts[i]);
      Prefix(lines, i);
      if depth == 0 && IsPlain(line) {
        ScannedOutside(Parse(lines[..i]), blank, prologue, line);
      } else {
        ScannedOther(Parse(lines[..i]), depth, blank, prologue, line);
      }
      if line.BeginLine? {
        depth := depth + 1;
        if depth > 1 {
          RefusedStaysRefused(lines, i + 1);
          return Err(NestedBegin(i));
        }
      } else if line.EndLine? {
        depth := depth - 1;
        if depth < 0 {
          RefusedStaysRefused(lines, i + 1);
          return Err(EndWithoutBegin(i));
        }
      } else if depth == 0 {
        if line.BlankLine? {
          blank := blank + 1;
          if blank == 1 {
            prologue := prologue + [line];
          }
        } else {
          blank := 0;
          prologue := prologue + [line];
        }
      }
      i := i + 1;
    }
    assert lines[..i] == lines;
    if depth != 0 {
      return Err(Unterminated);
    }
    return Ok(prologue);
  }

  // ----- the second pass

  /** The parts' names, in order. */
  function PartNames(doc: seq<Item>): seq<string> {
    if doc == [] then []
    else if IsPart(doc[|doc| - 1]) then PartNames(doc[..|doc| - 1]) + [doc[|doc| - 1].begin.name]
    else PartNames(doc[..|doc| - 1])
  }

  ghost predicate NamesDiffer(ns: seq<string>) {
    forall i, j :: 0 <= i < j < |ns| ==> ns[i] != ns[j]
  }

  lemma PathIsInjective(names: Names, a: string, b: string)
    ensures names.Path(a) == names.Path(b) <==> a == b
  {
    var before := names.outdir + "/" + names.prefix + "_";
    assert |names.Path(a)| == |before| + |a| + |names.ext|;
    assert |names.Path(b)| == |before| + |b| + |names.ext|;
    if names.Path(a) == names.Path(b) {
      assert names.Path(a)[|before|..|before| + |a|] == a;
      assert names.Path(b)[|before|..|before| + |b|] == b;
    }
  }

  /** Each part stands where its region's name says. */
  lemma {:induction false} PartsByName(names: Names, prologue: seq<Line>, doc: seq<Item>)
    ensures |Parts(names, prologue, doc)| == |PartNames(doc)|
    ensures forall k :: 0 <= k < |PartNames(doc)| ==>
              Parts(names, prologue, doc)[k].path == names.Path(PartNames(doc)[k]) && IsMpi(PartNames(doc)[k])
  {
    if doc != [] {
      PartsByName(names, prologue, doc[..|doc| - 1]);
    }
  }

  /** Parts share a path exactly if their regions share a name, letter case apart; and none has the path of the rest. */
  lemma PathsDifferIffNamesDo(names: Names, prologue: seq<Line>, doc: seq<Item>)
    ensures PathsDiffer(Parts(names, prologue, doc)) <==> NamesDiffer(PartNames(doc))
    ensures forall k :: 0 <= k < |Parts(names, prologue, doc)| ==>
              Parts(names, prologue, doc)[k].path != names.Path("rest")
  {
    PartsByName(names, prologue, doc);
    var files, ns := Parts(names, prologue, doc), PartNames(doc);
    forall i, j | 0 <= i < j < |files|
      ensures files[i].path == files[j].path <==> ns[i] == ns[j]
    {
      PathIsInjective(names, ns[i], ns[j]);
    }
    forall k | 0 <= k < |files|
      ensures files[k].path != names.Path("rest")
    {
      PathIsInjective(names, ns[k], "rest");
      assert ns[k][0] == 'm';
    }
  }

  function PathsOf(files: seq<File>): set<string> {
    set k | 0 <= k < |files| :: files[k].path
  }

  /** The second pass's variables: the open region's name and body, the parts and the rest so far, and the paths. */
  datatype Cutting = Cutting(depth: int, name: string, body: seq<Line>, files: seq<File>, rest: seq<Line>,
                             written: set<string>)

  /** What the second pass has made of the lines so far. */
  ghost predicate Cut(names: Names, prologue: seq<Line>, p: Parsed, c: Cutting) {
    && c.depth == (if p.open == None then 0 else 1)
    && (p.open.Some? ==>
          p.open.value.begin.BeginLine? && c.name == p.open.value.begin.name && c.body == p.open.value.body)
    && c.files == Parts(names, prologue, p.doc) && c.rest == RestLines(p.doc)
    && PathsDiffer(c.files) && c.written == PathsOf(c.files)
  }

  lemma PartsLast(names: Names, prologue: seq<Line>, doc: seq<Item>, item: Item)
    ensures Parts(names, prologue, doc + [item])
         == if IsPart(item)
            then Parts(names, prologue, doc) + [File(names.Path(item.begin.name), prologue + item.body)]
            else Parts(names, prologue, doc)
    ensures RestLines(doc + [item])
         == if item.Region? && !IsPart(item) then RestLines(doc) + item.body else RestLines(doc)
  {
  }

  /** A line that ends no region makes no part and no rest. */
  lemma PartsKept(names: Names, prologue: seq<Line>, p: Parsed, line: Line)
    requires p.open == None || !line.EndLine?
    ensures var doc := ParseStep(p, line).doc;
            Parts(names, prologue, doc) == Parts(names, prologue, p.doc) && RestLines(doc) == RestLines(p.doc)
  {
  }

  /** A line that ends a region makes it a part, or rest. */
  lemma PartsClosed(names: Names, prologue: seq<Line>, p: Parsed, line: Line)
    requires p.open.Some? && p.open.value.begin.BeginLine? && line.EndLine?
    ensures var p', name, body := ParseStep(p, line), p.open.value.begin.name, p.open.value.body;
            var files, rest := Parts(names, prologue, p.doc), RestLines(p.doc);
            && p'.open == None
            && (IsMpi(name) ==> Parts(names, prologue, p'.doc) == files + [File(names.Path(name), prologue + body)]
                                && RestLines(p'.doc) == rest)
            && (!IsMpi(name) ==> Parts(names, prologue, p'.doc) == files && RestLines(p'.doc) == rest + body)
  {
  }

  /** Parts once made stay. */
  lemma {:induction false} PartsStay(names: Names, prologue: seq<Line>, lines: seq<Line>, i: nat)
    requires i <= |lines|
    ensures Parts(names, prologue, Parse(lines[..i]).doc) <= Parts(names, prologue, Parse(lines).doc)
  {
    if i == |lines| {
      assert lines[..i] == lines;
    } else {
      var init, p := lines[..|lines| - 1], Parse(lines[..|lines| - 1]);
      assert init[..i] == lines[..i];
      PartsStay(names, prologue, init, i);
      var p' := ParseStep(p, lines[|lines| - 1]);
      if p'.doc != p.doc {
        PartsLast(names, prologue, p.doc, p'.doc[|p.doc|]);
        assert p'.doc == p.doc + [p'.doc[|p.doc|]];
      }
    }
  }

  /** At the end of an MPI_ region: its part is new, or its path has been written before. */
  method WritePart(files: seq<File>, written: set<string>, file: File) returns (ok: bool, files': seq<File>, written': set<string>)
    requires PathsDiffer(files) && written == PathsOf(files)
    ensures ok <==> file.path !in PathsOf(files)
    ensures ok ==> files' == files + [file] && written' == written + {file.path}
    ensures ok ==> PathsDiffer(files') && written' == PathsOf(files')
  {
    files', written' := files, written;
    if file.path in written {
      return false, files, written;
    }
    AddFile(files, file);
    return true, files + [file], written + {file.path};
  }

  /** The path is that of the first part whose path an earlier part has. */
  ghost predicate Collides(path: string, files: seq<File>) {
    exists k :: 0 <= k < |files| && files[k].path == path && path in PathsOf(files[..k]) && PathsDiffer(files[..k])
  }

  /** What the second pass says is wrong. */
  ghost predicate Refuses(error: Error, files: seq<File>) {
    match error
    case SamePath(path) => Collides(path, files)
    case NoMarkers => files == []
    case NestedBegin(_) => false
    case EndWithoutBegin(_) => false
    case Unterminated => false
  }

  /** What the second pass answers. */
  ghost predicate CutRight(r: Result<seq<File>>, names: Names, prologue: seq<Line>, doc: seq<Item>) {
    && (r.Ok? <==> PathsDiffer(Parts(names, prologue, doc)) && PartNames(doc) != [])
    && (r.Ok? ==> r.value == Parts(names, prologue, doc) + [Rest(names, prologue, doc)])
    && (r.Err? ==> Refuses(r.error, Parts(names, prologue, doc)))
  }

  lemma CutShort(names: Names, prologue: seq<Line>, lines: seq<Line>, i: nat, files: seq<File>, file: File)
    requires i < |lines| && PathsDiffer(files) && file.path in PathsOf(files)
    requires Parts(names, prologue, ParseStep(Parse(lines[..i]), lines[i]).doc) == files + [file]
    ensures CutRight(Err(SamePath(file.path)), names, prologue, Parse(lines).doc)
  {
    Prefix(lines, i);
    PartsStay(names, prologue, lines, i + 1);
    SameTwice(files, file, Parts(names, prologue, Parse(lines).doc));
  }

  lemma CutThrough(names: Names, prologue: seq<Line>, p: Parsed, c: Cutting)
    requires Cut(names, prologue, p, c)
    ensures CutRight(if c.files == [] then Err(NoMarkers) else Ok(c.files + [File(names.Path("rest"), prologue + c.rest)]),
                     names, prologue, p.doc)
  {
    PartsByName(names, prologue, p.doc);
  }

  /** The part that an MPI_ region becomes at its end. */
  function PartOf(names: Names, prologue: seq<Line>, c: Cutting): File {
    File(names.Path(c.name), prologue + c.body)
  }

  /** One line of the second pass, at a place where it may stand. It is refused only at the end of a region whose path
      has been written before. */
  method CutLine(names: Names, prologue: seq<Line>, line: Line, c: Cutting, ghost p: Parsed) returns (r: Result<Cutting>)
    requires Cut(names, prologue, p, c)
    requires (line.BeginLine? ==> p.open == None) && (line.EndLine? ==> p.open.Some?)
    ensures r.Ok? ==> Cut(names, prologue, ParseStep(p, line), r.value)
    ensures r.Err? ==> r.error == SamePath(names.Path(c.name)) && names.Path(c.name) in PathsOf(c.files)
                       && Parts(names, prologue, ParseStep(p, line).doc) == c.files + [PartOf(names, prologue, c)]
  {
    if line.EndLine? {
      PartsClosed(names, prologue, p, line);
      if !IsMpi(c.name) {
        return Ok(c.(depth := c.depth - 1, rest := c.rest + c.body));
      }
      var ok, files, written := WritePart(c.files, c.written, PartOf(names, prologue, c));
      if !ok {
        return Err(SamePath(names.Path(c.name)));
      }
      return Ok(c.(depth := c.depth - 1, files := files, written := written));
    }
    PartsKept(names, prologue, p, line);
    if line.BeginLine? {
      return Ok(c.(depth := c.depth + 1, name := line.name, body := []));
    }
    return Ok(if c.depth > 0 then c.(body := c.body + [line]) else c);
  }

  /** The second pass: every part to its path, the other regions to the rest. It walks the same lines as the first pass
      did, and does not look whether the depth is right. */
  method SecondPass(texts: seq<string>, names: Names, prologue: seq<Line>) returns (r: Result<seq<File>>)
    requires Depth(ClassifyAll(texts)) == Some(0)
    ensures CutRight(r, names, prologue, Parse(ClassifyAll(texts)).doc)
  {
    ghost var lines := ClassifyAll(texts);
    var c, i := Cutting(0, "", [], [], [], {}), 0;
    while i < |texts|
      invariant 0 <= i <= |texts|
      invariant Cut(names, prologue, Parse(lines[..i]), c)
    {
      Prefix(lines, i);
      MarkersAlternate(lines, i);
      var next := CutLine(names, prologue, Classify(texts[i]), c, Parse(lines[..i]));
      if next.Err? {
        CutShort(names, prologue, lines, i, c.files, PartOf(names, prologue, c));
        return Err(next.error);
      }
      c, i := next.value, i + 1;
    }
    assert lines[..i] == lines;
    CutThrough(names, prologue, Parse(lines), c);
    if |c.files| == 0 {
      return Err(NoMarkers);
    }
    return Ok(c.files + [File(names.Path("rest"), prologue + c.rest)]);
  }

  /** In an accepted file a region begins only outside, and ends only inside, of a region. */
  lemma MarkersAlternate(lines: seq<Line>, i: nat)
    requires Depth(lines) == Some(0) && i < |lines|
    ensures lines[i].BeginLine? ==> Parse(lines[..i]).open == None
    ensures lines[i].EndLine? ==> Parse(lines[..i]).open.Some?
  {
    if Depth(lines[..i + 1]) == None {
      RefusedStaysRefused(lines, i + 1);
    }
    Prefix(lines, i);
    ParseRight(lines[..i]);
  }

  lemma SameTwice(files: seq<File>, file: File, more: seq<File>)
    requires file.path in PathsOf(files) && files + [file] <= more
    requires PathsDiffer(files)
    ensures !PathsDiffer(more) && Collides(file.path, more)
  {
    assert more[..|files|] == files && more[|files|] == file;
    var k :| 0 <= k < |files| && files[k].path == file.path;
    assert more[k] == (files + [file])[k] && more[|files|] == (files + [file])[|files|];
  }

  lemma AddFile(files: seq<File>, file: File)
    requires PathsDiffer(files) && file.path !in PathsOf(files)
    ensures PathsDiffer(files + [file]) && PathsOf(files + [file]) == PathsOf(files) + {file.path}
  {
    var more := files + [file];
    forall i, j | 0 <= i < j < |more|
      ensures more[i].path != more[j].path
    {
      assert files[i].path in PathsOf(files);
    }
    forall x | x in PathsOf(files) + {file.path}
      ensures x in PathsOf(more)
    {
      if x in PathsOf(files) {
        var k :| 0 <= k < |files| && files[k].path == x;
        assert more[k].path == x;
      } else {
        assert more[|files|].path == x;
      }
    }
    forall x | x in PathsOf(more)
      ensures x in PathsOf(files) + {file.path}
    {
      var k :| 0 <= k < |more| && more[k].path == x;
      assert k < |files| ==> more[k] == files[k];
    }
  }

  // ----- the whole program

  /** The last fields of the lines that the parts' regions begin with. */
  function PartFields(doc: seq<Item>): seq<string> {
    if doc == [] then []
    else if IsPart(doc[|doc| - 1]) then PartFields(doc[..|doc| - 1]) + [LastField(doc[|doc| - 1].begin.text)]
    else PartFields(doc[..|doc| - 1])
  }

  ghost predicate Classified(lines: seq<Line>) {
    forall k :: 0 <= k < |lines| ==> lines[k] == Classify(lines[k].text)
  }

  lemma ClassifiedParts(a: seq<Line>, b: seq<Line>)
    requires Classified(a + b)
    ensures Classified(a) && Classified(b)
  {
    forall k | 0 <= k < |a|
      ensures a[k] == Classify(a[k].text)
    {
      assert (a + b)[k] == a[k];
    }
    forall k | 0 <= k < |b|
      ensures b[k] == Classify(b[k].text)
    {
      assert (a + b)[|a| + k] == b[k];
    }
  }

  lemma BeginIsNamed(line: Line)
    requires line == Classify(line.text) && line.BeginLine?
    ensures line.name == ToLower(LastField(line.text))
  {
  }

  lemma {:induction false} PartFieldsNamed(doc: seq<Item>)
    requires WellFormed(doc) && Classified(Flatten(doc))
    ensures |PartFields(doc)| == |PartNames(doc)|
    ensures forall k :: 0 <= k < |PartNames(doc)| ==> PartNames(doc)[k] == ToLower(PartFields(doc)[k])
  {
    if doc != [] {
      var init, item := doc[..|doc| - 1], doc[|doc| - 1];
      assert Flatten(doc) == Flatten(init) + Lines(item);
      ClassifiedParts(Flatten(init), Lines(item));
      PartFieldsNamed(init);
      if IsPart(item) {
        assert Lines(item)[0] == item.begin;
        BeginIsNamed(item.begin);
      }
    }
  }

  /** No two parts go to one path exactly if no two of the marker lines that begin them have last fields that agree, but
      for case. */
  lemma PathsDifferIffFieldsDo(names: Names, prologue: seq<Line>, texts: seq<string>, doc: seq<Item>)
    requires WellFormed(doc) && Flatten(doc) == ClassifyAll(texts)
    ensures PathsDiffer(Parts(names, prologue, doc)) <==>
              forall i, j :: 0 <= i < j < |PartFields(doc)| ==> !SameButForCase(PartFields(doc)[i], PartFields(doc)[j])
  {
    PartFieldsNamed(doc);
    PathsDifferIffNamesDo(names, prologue, doc);
    var ns, fields := PartNames(doc), PartFields(doc);
    forall i, j | 0 <= i < j < |ns|
      ensures ns[i] == ns[j] <==> SameButForCase(fields[i], fields[j])
    {
      ToLowerIff(fields[i], fields[j]);
    }
  }

  /** The script succeeds exactly on the files that are documents with at least one MPI_ region and no two of the same
      name. Then every part begins with the prologue, which is the lines outside all regions with runs of blank ones
      cut; each MPI_ region is the remainder of one part, in its place; the other regions are the remainder of the
      last part; and no part overwrites another. Otherwise the error is the first of the first pass, or else of the
      second. */
  method Split(texts: seq<string>, names: Names) returns (r: Result<seq<File>>)
    ensures r.Ok? <==> exists doc :: WellFormed(doc) && Flatten(doc) == ClassifyAll(texts)
                                     && PartNames(doc) != [] && NamesDiffer(PartNames(doc))
    ensures r.Ok? ==> forall doc :: WellFormed(doc) && Flatten(doc) == ClassifyAll(texts) ==>
              var prologue := Collapse(OutsideLines(doc));
              r.value == Parts(names, prologue, doc) + [Rest(names, prologue, doc)]
    ensures r.Ok? ==> PathsDiffer(r.value) && |r.value| > 0
                      && r.value[|r.value| - 1].path == names.outdir + "/" + names.prefix + "_" + "rest" + names.ext
    ensures r.Err? ==>
              if Depth(ClassifyAll(texts)) != Some(0) then Misplaced(r.error, ClassifyAll(texts))
              else var doc := Parse(ClassifyAll(texts)).doc;
                   Refuses(r.error, Parts(names, Collapse(OutsideLines(doc)), doc))
  {
    ghost var lines := ClassifyAll(texts);
    AcceptedIffDocument(lines);
    forall doc | WellFormed(doc) && Flatten(doc) == lines
      ensures Parse(lines).doc == doc
    {
      ParseFlatten(doc);
    }
    var first := FirstPass(texts);
    match first
    case Err(e) =>
      return Err(e);
    case Ok(prologue) =>
      PathsDifferIffNamesDo(names, prologue, Parse(lines).doc);
      r := SecondPass(texts, names, prologue);
  }
}
