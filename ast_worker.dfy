/**
 * The text-splicing engine. An `ASTWorker` keeps the file's original text next to
 * a working buffer: it turns the parser's import declarations into descriptors
 * (span plus text), widening each span over the comments that belong to it; it cuts
 * a set of spans out of the buffer; and it writes groups of import texts back at one
 * offset, each group right after the previous one.
 *
 * The parser is not modelled: its import declarations, with their offsets, lines
 * and comment records, are the input of `FindImportNodes`.
 */
module AstWorker {
  import opened Text
  import opened Seqs

  /** `importCommentMode`: which comments travel with an import. */
  datatype CommentMode = NoComments | SameLine | PrevLine

  /** `endOfLine` setting. */
  datatype EndOfLineSetting = Auto | Lf | Crlf | Cr

  /** Where `insertImports` writes the groups. */
  datatype InsertLocation = Leading | AutoLocation

  datatype Options = Options(importCommentMode: CommentMode, endOfLine: EndOfLineSetting)

  /** A comment record of the parser: offsets and first/last line. */
  datatype Comment = Comment(start: nat, end: nat, startLine: int, endLine: int)

  datatype SourceLocation = SourceLocation(startLine: int, endLine: int)

  /**
   * An import declaration as the parser reports it. Offsets and location may be
   * missing; `sourceValue` is the imported module specifier.
   */
  datatype ImportNode = ImportNode(
    start: Option<nat>,
    end: Option<nat>,
    loc: Option<SourceLocation>,
    leadingComments: Option<seq<Comment>>,
    trailingComments: Option<seq<Comment>>,
    sourceValue: string)

  datatype Bounds = Bounds(start: nat, end: nat)

  /** A `Node`: the declaration, its span in the original text, and that text. */
  datatype Descriptor = Descriptor(target: ImportNode, bounds: Bounds, value: string)

  /** The key `${start}_${end}` of the claimed-comment dictionary. */
  type Key = (nat, nat)

  function KeyOf(c: Comment): Key {
    (c.start, c.end)
  }

  /** A reducer's accumulator: the running offset and the claimed comments. */
  datatype Attach = Attach(offset: nat, visited: set<Key>)

  /** A declaration with both offsets and a location; the others are skipped. */
  predicate Located(n: ImportNode) {
    n.start.Some? && n.end.Some? && n.loc.Some?
  }

  /////////////////////////////////////////////////////////////////////////////
  // Comment attachment

  /** The line filter of the leading reducer, for a declaration starting on `line`. */
  predicate Qualifies(c: Comment, mode: CommentMode, line: int) {
    !(mode == SameLine && c.endLine != line) && !(mode == PrevLine && c.endLine < line - 1)
  }

  /** One call of the leading-comment reducer. */
  function LeadingStep(c: Comment, mode: CommentMode, line: int, acc: Attach): Attach {
    if KeyOf(c) in acc.visited then acc
    else if mode == SameLine && c.endLine != line then acc
    else if mode == PrevLine && c.endLine < line - 1 then acc
    else if c.start >= acc.offset then acc
    else Attach(c.start, acc.visited + {KeyOf(c)})
  }

  /** `leadingComments.reduce(...)`, front to back from `acc`. */
  function AttachLeading(comments: seq<Comment>, mode: CommentMode, line: int, acc: Attach): (r: Attach)
    ensures r.offset <= acc.offset
    ensures acc.visited <= r.visited
    decreases |comments|
  {
    if comments == [] then acc
    else AttachLeading(comments[1..], mode, line, LeadingStep(comments[0], mode, line, acc))
  }

  /** One call of the trailing-comment reducer, for a declaration ending on `line`. */
  function TrailingStep(c: Comment, line: int, acc: Attach): Attach {
    if c.startLine != line then acc else Attach(c.end, acc.visited + {KeyOf(c)})
  }

  /** `trailingComments.reduce(...)` from `acc`: the last comment is folded in last. */
  function AttachTrailing(comments: seq<Comment>, line: int, acc: Attach): (r: Attach)
    ensures acc.visited <= r.visited
    decreases |comments|
  {
    if comments == [] then acc
    else TrailingStep(comments[|comments| - 1], line, AttachTrailing(comments[..|comments| - 1], line, acc))
  }

  /**
   * The span start never passes an unclaimed comment that qualifies: it ends at or
   * before the start of every such comment.
   */
  lemma {:induction false} LeadingReachesCandidates(cs: seq<Comment>, mode: CommentMode, line: int, acc: Attach)
    ensures forall i :: 0 <= i < |cs| && Qualifies(cs[i], mode, line) && KeyOf(cs[i]) !in acc.visited ==>
              AttachLeading(cs, mode, line, acc).offset <= cs[i].start
    decreases |cs|
  {
    if cs != [] {
      var step := LeadingStep(cs[0], mode, line, acc);
      var r := AttachLeading(cs, mode, line, acc);
      LeadingReachesCandidates(cs[1..], mode, line, step);
      forall i | 0 <= i < |cs| && Qualifies(cs[i], mode, line) && KeyOf(cs[i]) !in acc.visited
        ensures r.offset <= cs[i].start
      {
        if i > 0 {
          assert cs[i] == cs[1..][i - 1];
          if KeyOf(cs[i]) in step.visited {
            assert step.offset == cs[0].start;
          }
        }
      }
    }
  }

  /**
   * A moved start is the start of a qualifying comment that was unclaimed and is
   * claimed now.
   */
  lemma {:induction false} LeadingMoveIsClaimed(cs: seq<Comment>, mode: CommentMode, line: int, acc: Attach)
    ensures var r := AttachLeading(cs, mode, line, acc);
            r.offset < acc.offset ==>
              exists i :: 0 <= i < |cs| && Qualifies(cs[i], mode, line) && KeyOf(cs[i]) !in acc.visited
                          && cs[i].start == r.offset && KeyOf(cs[i]) in r.visited
    decreases |cs|
  {
    if cs != [] {
      var step := LeadingStep(cs[0], mode, line, acc);
      var r := AttachLeading(cs, mode, line, acc);
      LeadingMoveIsClaimed(cs[1..], mode, line, step);
      if r.offset < step.offset {
        var i :| 0 <= i < |cs[1..]| && Qualifies(cs[1..][i], mode, line) && KeyOf(cs[1..][i]) !in step.visited
                 && cs[1..][i].start == r.offset && KeyOf(cs[1..][i]) in r.visited;
        assert cs[i + 1] == cs[1..][i];
      } else if r.offset < acc.offset {
        assert step.offset == cs[0].start;
      }
    }
  }

  /** Only qualifying, unclaimed comments lying before the start get claimed. */
  lemma {:induction false} LeadingClaimsOnlyCandidates(cs: seq<Comment>, mode: CommentMode, line: int, acc: Attach)
    ensures forall k :: k in AttachLeading(cs, mode, line, acc).visited && k !in acc.visited ==>
              exists i :: 0 <= i < |cs| && KeyOf(cs[i]) == k && Qualifies(cs[i], mode, line) && cs[i].start < acc.offset
    decreases |cs|
  {
    if cs != [] {
      var step := LeadingStep(cs[0], mode, line, acc);
      var r := AttachLeading(cs, mode, line, acc);
      LeadingClaimsOnlyCandidates(cs[1..], mode, line, step);
      forall k | k in r.visited && k !in acc.visited
        ensures exists i :: 0 <= i < |cs| && KeyOf(cs[i]) == k && Qualifies(cs[i], mode, line) && cs[i].start < acc.offset
      {
        if k in step.visited {
          assert KeyOf(cs[0]) == k;
        } else {
          var i :| 0 <= i < |cs[1..]| && KeyOf(cs[1..][i]) == k && Qualifies(cs[1..][i], mode, line) && cs[1..][i].start < step.offset;
          assert cs[i + 1] == cs[1..][i];
        }
      }
    }
  }

  /** When every qualifying comment is already claimed, the start stays where it is. */
  lemma ClaimedCommentsAreSkipped(cs: seq<Comment>, mode: CommentMode, line: int, acc: Attach)
    requires forall i :: 0 <= i < |cs| && Qualifies(cs[i], mode, line) ==> KeyOf(cs[i]) in acc.visited
    ensures AttachLeading(cs, mode, line, acc).offset == acc.offset
  {
    LeadingMoveIsClaimed(cs, mode, line, acc);
  }

  /** Index of the last comment starting on `line`. */
  function LastOnLine(cs: seq<Comment>, line: int): (r: Option<nat>)
    ensures r.None? <==> forall i :: 0 <= i < |cs| ==> cs[i].startLine != line
    ensures r.Some? ==> r.value < |cs| && cs[r.value].startLine == line
    ensures r.Some? ==> forall j :: r.value < j < |cs| ==> cs[j].startLine != line
  {
    if cs == [] then None
    else if cs[|cs| - 1].startLine == line then Some(|cs| - 1)
    else
      assert forall i :: 0 <= i < |cs| - 1 ==> cs[..|cs| - 1][i] == cs[i];
      LastOnLine(cs[..|cs| - 1], line)
  }

  /**
   * The span end is the end of the last comment starting on the declaration's last
   * line, or stays put when there is none.
   */
  lemma {:induction false} TrailingEnd(cs: seq<Comment>, line: int, acc: Attach)
    ensures AttachTrailing(cs, line, acc).offset == match LastOnLine(cs, line)
                                                    case None => acc.offset
                                                    case Some(i) => cs[i].end
    decreases |cs|
  {
    if cs != [] && cs[|cs| - 1].startLine != line {
      TrailingEnd(cs[..|cs| - 1], line, acc);
    }
  }

  /** The trailing reducer claims exactly the comments starting on the declaration's last line. */
  lemma {:induction false} TrailingClaims(cs: seq<Comment>, line: int, acc: Attach)
    ensures forall k :: k in AttachTrailing(cs, line, acc).visited <==>
              k in acc.visited || exists i :: 0 <= i < |cs| && cs[i].startLine == line && KeyOf(cs[i]) == k
    decreases |cs|
  {
    if cs != [] {
      var prefix := cs[..|cs| - 1];
      var r := AttachTrailing(cs, line, acc);
      TrailingClaims(prefix, line, acc);
      forall k
        ensures k in r.visited <==> k in acc.visited || exists i :: 0 <= i < |cs| && cs[i].startLine == line && KeyOf(cs[i]) == k
      {
        if exists i :: 0 <= i < |cs| && cs[i].startLine == line && KeyOf(cs[i]) == k {
          var i :| 0 <= i < |cs| && cs[i].startLine == line && KeyOf(cs[i]) == k;
          if i < |cs| - 1 {
            assert prefix[i] == cs[i];
          }
        }
        if exists i :: 0 <= i < |prefix| && prefix[i].startLine == line && KeyOf(prefix[i]) == k {
          var i :| 0 <= i < |prefix| && prefix[i].startLine == line && KeyOf(prefix[i]) == k;
          assert cs[i] == prefix[i];
        }
      }
    }
  }

  /////////////////////////////////////////////////////////////////////////////
  // Descriptors

  /** The span start: the declaration's own, widened over leading comments unless the mode is none. */
  function SpanStart(n: ImportNode, mode: CommentMode, visited: set<Key>): Attach
    requires Located(n)
  {
    if mode != NoComments && n.leadingComments.Some?
    then AttachLeading(n.leadingComments.value, mode, n.loc.value.startLine, Attach(n.start.value, visited))
    else Attach(n.start.value, visited)
  }

  /** The span end: the declaration's own, widened over trailing comments unless the mode is none. */
  function SpanEnd(n: ImportNode, mode: CommentMode, visited: set<Key>): Attach
    requires Located(n)
  {
    if mode != NoComments && n.trailingComments.Some?
    then AttachTrailing(n.trailingComments.value, n.loc.value.endLine, Attach(n.end.value, visited))
    else Attach(n.end.value, visited)
  }

  /** The visitor for one declaration: its descriptor (if it is located) and the claims after it. */
  function Visit(n: ImportNode, mode: CommentMode, initialSource: string, visited: set<Key>): (Option<Descriptor>, set<Key>) {
    if !Located(n) then (None, visited)
    else
      var s := SpanStart(n, mode, visited);
      var e := SpanEnd(n, mode, s.visited);
      (Some(Descriptor(n, Bounds(s.offset, e.offset), Slice(initialSource, s.offset, e.offset))), e.visited)
  }

  /** The located declarations, in order. */
  function LocatedNodes(nodes: seq<ImportNode>): seq<ImportNode> {
    if nodes == [] then []
    else (if Located(nodes[0]) then [nodes[0]] else []) + LocatedNodes(nodes[1..])
  }

  function Targets(ds: seq<Descriptor>): (r: seq<ImportNode>)
    ensures |r| == |ds|
    ensures forall k :: 0 <= k < |ds| ==> r[k] == ds[k].target
  {
    if ds == [] then [] else [ds[0].target] + Targets(ds[1..])
  }

  /** The traversal of `findImportNodes` over the declarations, claims carried from one to the next. */
  function Extract(nodes: seq<ImportNode>, mode: CommentMode, initialSource: string, visited: set<Key>): seq<Descriptor>
    decreases |nodes|
  {
    if nodes == [] then []
    else
      var (d, v) := Visit(nodes[0], mode, initialSource, visited);
      (if d.Some? then [d.value] else []) + Extract(nodes[1..], mode, initialSource, v)
  }

  /** One descriptor per located declaration, in order. */
  lemma {:induction false} ExtractTargets(nodes: seq<ImportNode>, mode: CommentMode, initialSource: string, visited: set<Key>)
    ensures Targets(Extract(nodes, mode, initialSource, visited)) == LocatedNodes(nodes)
    decreases |nodes|
  {
    if nodes != [] {
      var (d, v) := Visit(nodes[0], mode, initialSource, visited);
      ExtractTargets(nodes[1..], mode, initialSource, v);
      var rest := Extract(nodes[1..], mode, initialSource, v);
      if d.Some? {
        assert ([d.value] + rest)[1..] == rest;
      }
    }
  }

  /**
   * Each descriptor comes from a located declaration; its value is cut from the
   * original text at its span; its span never starts after the declaration; and
   * with comments off the span is the declaration's own.
   */
  predicate WellCut(ds: seq<Descriptor>, mode: CommentMode, initialSource: string) {
    forall k :: 0 <= k < |ds| ==>
      && Located(ds[k].target)
      && ds[k].value == Slice(initialSource, ds[k].bounds.start, ds[k].bounds.end)
      && ds[k].bounds.start <= ds[k].target.start.value
      && (mode == NoComments ==> ds[k].bounds == Bounds(ds[k].target.start.value, ds[k].target.end.value))
  }

  lemma {:induction false} ExtractSpans(nodes: seq<ImportNode>, mode: CommentMode, initialSource: string, visited: set<Key>)
    ensures WellCut(Extract(nodes, mode, initialSource, visited), mode, initialSource)
    decreases |nodes|
  {
    if nodes != [] {
      var (d, v) := Visit(nodes[0], mode, initialSource, visited);
      var rest := Extract(nodes[1..], mode, initialSource, v);
      ExtractSpans(nodes[1..], mode, initialSource, v);
      if d.Some? {
        var n := nodes[0];
        var st := SpanStart(n, mode, visited);
        assert st.offset <= n.start.value;
        var r := [d.value] + rest;
        assert forall k :: 1 <= k < |r| ==> r[k] == rest[k - 1];
      }
    }
  }

  /** The descriptor list of a visit: the descriptor, if any. */
  function Emitted(d: Option<Descriptor>): seq<Descriptor> {
    if d.Some? then [d.value] else []
  }

  lemma ExtractStep(nodes: seq<ImportNode>, i: nat, mode: CommentMode, initialSource: string, visited: set<Key>,
                    d: Option<Descriptor>, v: set<Key>)
    requires i < |nodes| && (d, v) == Visit(nodes[i], mode, initialSource, visited)
    ensures Extract(nodes[i..], mode, initialSource, visited) == Emitted(d) + Extract(nodes[i + 1..], mode, initialSource, v)
  {
    assert nodes[i..][0] == nodes[i] && nodes[i..][1..] == nodes[i + 1..];
  }

  /** The leading reducer as the loop it runs: `start` and the claims, comment by comment. */
  method ClaimLeading(cs: seq<Comment>, mode: CommentMode, line: int, start: nat, visited: set<Key>)
      returns (newStart: nat, newVisited: set<Key>)
    ensures Attach(newStart, newVisited) == AttachLeading(cs, mode, line, Attach(start, visited))
  {
    newStart, newVisited := start, visited;
    var j := 0;
    while j < |cs|
      invariant 0 <= j <= |cs|
      invariant AttachLeading(cs[j..], mode, line, Attach(newStart, newVisited)) == AttachLeading(cs, mode, line, Attach(start, visited))
    {
      var c := cs[j];
      assert cs[j..][1..] == cs[j + 1..];
      var key := KeyOf(c);
      if key in newVisited {
      } else if mode == SameLine && c.endLine != line {
      } else if mode == PrevLine && c.endLine < line - 1 {
      } else if c.start >= newStart {
      } else {
        newVisited := newVisited + {key};
        newStart := c.start;
      }
      j := j + 1;
    }
  }

  /** The trailing reducer as the loop it runs: `end` and the claims, comment by comment. */
  method ClaimTrailing(cs: seq<Comment>, line: int, end: nat, visited: set<Key>)
      returns (newEnd: nat, newVisited: set<Key>)
    ensures Attach(newEnd, newVisited) == AttachTrailing(cs, line, Attach(end, visited))
  {
    newEnd, newVisited := end, visited;
    var j := 0;
    while j < |cs|
      invariant 0 <= j <= |cs|
      invariant Attach(newEnd, newVisited) == AttachTrailing(cs[..j], line, Attach(end, visited))
    {
      var c := cs[j];
      assert cs[..j + 1][..j] == cs[..j];
      if c.startLine == line {
        newVisited := newVisited + {KeyOf(c)};
        newEnd := c.end;
      }
      j := j + 1;
    }
    assert cs[..|cs|] == cs;
  }

  /////////////////////////////////////////////////////////////////////////////
  // Removal and insertion

  function StartOf(d: Descriptor): int {
    d.bounds.start
  }

  /**
   * The order in which `removeNodes` pops the spans: a stable sort by descending
   * start, popped from the back, i.e. ascending start.
   */
  function Ascending(nodes: seq<Descriptor>): seq<Descriptor> {
    Reverse(SortBy(nodes, StartOf, IntGe))
  }

  /** The text kept between and after the ascending `spans`, reading from `from`. */
  function Gaps(src: string, from: nat, spans: seq<Descriptor>): string
    decreases |spans|
  {
    if spans == [] then SliceFrom(src, from)
    else Slice(src, from, spans[0].bounds.start) + Gaps(src, spans[0].bounds.end, spans[1..])
  }

  /** Spans one after another, none overlapping the next, all inside `[from, limit]`. */
  predicate Chained(spans: seq<Descriptor>, from: nat, limit: nat)
    decreases |spans|
  {
    if spans == [] then from <= limit
    else from <= spans[0].bounds.start <= spans[0].bounds.end && Chained(spans[1..], spans[0].bounds.end, limit)
  }

  /** Total length of the spans. */
  function SpanTotal(spans: seq<Descriptor>): int {
    if spans == [] then 0 else spans[0].bounds.end - spans[0].bounds.start + SpanTotal(spans[1..])
  }

  /** `nodes.reduce((value, node) => value + node.value + eol, '')` */
  function Serialize(nodes: seq<Descriptor>, eol: string): string {
    if nodes == [] then "" else Serialize(nodes[..|nodes| - 1], eol) + nodes[|nodes| - 1].value + eol
  }

  /** Total length of the values. */
  function ValueTotal(nodes: seq<Descriptor>): nat {
    if nodes == [] then 0 else ValueTotal(nodes[..|nodes| - 1]) + |nodes[|nodes| - 1].value|
  }

  /** The text `insertImports` writes for `groups`: per group, a terminator and its lines. */
  function Blocks(groups: seq<seq<Descriptor>>, eol: string): string {
    if groups == [] then "" else Blocks(groups[..|groups| - 1], eol) + eol + Serialize(groups[|groups| - 1], eol)
  }

  /** The inner reduce of `insertImports`: the least start of a group (`None` for `Infinity`). */
  function GroupStart(group: seq<Descriptor>): (r: Option<nat>)
    ensures r.None? <==> group == []
    ensures r.Some? ==> exists i :: 0 <= i < |group| && group[i].bounds.start == r.value
    ensures r.Some? ==> forall i :: 0 <= i < |group| ==> r.value <= group[i].bounds.start
  {
    if group == [] then None
    else
      var last := group[|group| - 1];
      var prefix := GroupStart(group[..|group| - 1]);
      assert forall i :: 0 <= i < |group| - 1 ==> group[..|group| - 1][i] == group[i];
      if prefix.Some? && prefix.value < last.bounds.start then prefix else Some(last.bounds.start)
  }

  /** The outer reduce: the least start over all groups (`None` for `Infinity`). */
  function MinStart(groups: seq<seq<Descriptor>>): (r: Option<nat>)
    ensures r.None? <==> forall g :: 0 <= g < |groups| ==> groups[g] == []
    ensures r.Some? ==> exists g, i :: 0 <= g < |groups| && 0 <= i < |groups[g]| && groups[g][i].bounds.start == r.value
    ensures r.Some? ==> forall g, i :: 0 <= g < |groups| && 0 <= i < |groups[g]| ==> r.value <= groups[g][i].bounds.start
  {
    if groups == [] then None
    else
      var last := GroupStart(groups[|groups| - 1]);
      var prefix := MinStart(groups[..|groups| - 1]);
      assert forall g :: 0 <= g < |groups| - 1 ==> groups[..|groups| - 1][g] == groups[g];
      if last.None? then prefix
      else if prefix.Some? && prefix.value < last.value then prefix
      else last
  }

  /** The offset `insertImports` starts from; `None` for `Infinity`. */
  function InsertionPoint(groups: seq<seq<Descriptor>>, location: InsertLocation): Option<nat> {
    if location == Leading then Some(0) else MinStart(groups)
  }

  /** Where an insertion at `index` lands in a buffer of `length` characters (`slice` clamps). */
  function Clamp(index: Option<nat>, length: nat): nat {
    if index.Some? then Min(index.value, length) else length
  }

  class ASTWorker {
    /** The text before any change. */
    const initialSource: string
    /** The working buffer. */
    var source: string
    const options: Options

    constructor(source: string, options: Options)
      ensures initialSource == source && this.source == source && this.options == options
    {
      initialSource := source;
      this.source := source;
      this.options := options;
    }

    /** The `endOfLine` getter: anything but `lf`, `cr` and `crlf` means "\n". */
    function EndOfLine(): (eol: string)
      ensures eol == "\r" <==> options.endOfLine == Cr
      ensures eol == "\r\n" <==> options.endOfLine == Crlf
      ensures eol == "\n" <==> options.endOfLine != Cr && options.endOfLine != Crlf
    {
      match options.endOfLine
      case Lf => "\n"
      case Cr => "\r"
      case Crlf => "\r\n"
      case Auto => "\n"
    }

    /**
     * `findImportNodes`, given what the parser reports for the buffer. Every value
     * is cut from `initialSource`, whatever has happened to the buffer since.
     */
    method FindImportNodes(nodes: seq<ImportNode>) returns (result: seq<Descriptor>)
      ensures result == Extract(nodes, options.importCommentMode, initialSource, {})
    {
      var mode := options.importCommentMode;
      result := [];
      var visited: set<Key> := {};
      var i := 0;
      assert nodes[0..] == nodes;
      while i < |nodes|
        invariant 0 <= i <= |nodes|
        invariant result + Extract(nodes[i..], mode, initialSource, visited) == Extract(nodes, mode, initialSource, {})
      {
        var d, v := VisitNode(nodes[i], visited);
        ExtractStep(nodes, i, mode, initialSource, visited, d, v);
        ghost var later := Extract(nodes[i + 1..], mode, initialSource, v);
        assert result + (Emitted(d) + later) == (result + Emitted(d)) + later;
        if d.Some? {
          result := result + [d.value];
        }
        visited := v;
        i := i + 1;
      }
      assert nodes[i..] == [];
    }

    /** The visitor of `findImportNodes` for one declaration. */
    method VisitNode(node: ImportNode, visited: set<Key>) returns (d: Option<Descriptor>, newVisited: set<Key>)
      ensures (d, newVisited) == Visit(node, options.importCommentMode, initialSource, visited)
    {
      var mode := options.importCommentMode;
      newVisited := visited;
      if !Located(node) {
        return None, newVisited;
      }
      var start := node.start.value;
      var end := node.end.value;
      if mode != NoComments && node.leadingComments.Some? {
        start, newVisited := ClaimLeading(node.leadingComments.value, mode, node.loc.value.startLine, start, newVisited);
      }
      if mode != NoComments && node.trailingComments.Some? {
        end, newVisited := ClaimTrailing(node.trailingComments.value, node.loc.value.endLine, end, newVisited);
      }
      var value := Slice(initialSource, start, end);
      d := Some(Descriptor(node, Bounds(start, end), value));
    }

    /**
     * `removeNodes`: nothing changes without spans; otherwise the buffer becomes one
     * terminator followed by the text between the spans, in ascending start order,
     * and after the last one.
     */
    method RemoveNodes(nodes: seq<Descriptor>)
      modifies this
      ensures nodes == [] ==> source == old(source)
      ensures nodes != [] ==> source == EndOfLine() + Gaps(old(source), 0, Ascending(nodes))
    {
      if |nodes| == 0 {
        return;
      }
      var sortedNodes := SortBy(nodes, StartOf, IntGe);
      var newSource := EndOfLine();
      var lastIndex := 0;
      while |sortedNodes| > 0
        invariant source == old(source)
        invariant newSource + Gaps(source, lastIndex, Reverse(sortedNodes)) == EndOfLine() + Gaps(source, 0, Ascending(nodes))
        decreases |sortedNodes|
      {
        var node := sortedNodes[|sortedNodes| - 1];
        GapsPop(source, lastIndex, sortedNodes);
        ghost var kept := Slice(source, lastIndex, node.bounds.start);
        ghost var rest := Gaps(source, node.bounds.end, Reverse(sortedNodes[..|sortedNodes| - 1]));
        assert newSource + (kept + rest) == (newSource + kept) + rest;
        sortedNodes := sortedNodes[..|sortedNodes| - 1];
        newSource := newSource + Slice(source, lastIndex, node.bounds.start);
        lastIndex := node.bounds.end;
      }
      assert Reverse(sortedNodes) == [];
      newSource := newSource + SliceFrom(source, lastIndex);
      source := newSource;
    }

    /**
     * `insertNodes`: the buffer's text before and after the (clamped) index stays,
     * with a terminator and each value followed by a terminator in between; the
     * result is the offset just past the inserted text.
     */
    method InsertNodes(nodes: seq<Descriptor>, insertIndex: nat) returns (rightEdge: nat)
      modifies this
      ensures var at := Min(insertIndex, |old(source)|);
              && source == old(source)[..at] + EndOfLine() + Serialize(nodes, EndOfLine()) + old(source)[at..]
              && rightEdge == at + |EndOfLine()| + |Serialize(nodes, EndOfLine())|
    {
      var eol := EndOfLine();
      var importsSource := Serialize(nodes, eol);
      var newSource := Slice(source, 0, insertIndex) + eol + importsSource;
      source := newSource + SliceFrom(source, insertIndex);
      rightEdge := |newSource|;
    }

    /**
     * `insertImports`: every group is written where the previous one ended, starting
     * at offset 0 (`leading`) or at the least start of all descriptors (`auto`,
     * `Infinity` when there are none, which `slice` clamps to the end).
     */
    method InsertImports(groups: seq<seq<Descriptor>>, location: InsertLocation)
      modifies this
      ensures var at := Clamp(InsertionPoint(groups, location), |old(source)|);
              source == old(source)[..at] + Blocks(groups, EndOfLine()) + old(source)[at..]
    {
      var insertIndex: nat := 0;
      if location == Leading {
        insertIndex := 0;
      }
      if location == AutoLocation {
        var least := MinStart(groups);
        insertIndex := if least.Some? then least.value else |source|;
      }
      ghost var eol := EndOfLine();
      ghost var at := Min(insertIndex, |source|);
      assert at == Clamp(InsertionPoint(groups, location), |source|);
      var j := 0;
      while j < |groups|
        invariant 0 <= j <= |groups|
        invariant Min(insertIndex, |source|) == at + |Blocks(groups[..j], eol)|
        invariant source == old(source)[..at] + Blocks(groups[..j], eol) + old(source)[at..]
        invariant at <= |old(source)|
      {
        ghost var blocks := Blocks(groups[..j], eol);
        ghost var before := source;
        ghost var index := insertIndex;
        assert groups[..j + 1][..j] == groups[..j];
        assert Blocks(groups[..j + 1], eol) == blocks + eol + Serialize(groups[j], eol);
        insertIndex := InsertNodes(groups[j], insertIndex);
        InsertStep(old(source), at, blocks, eol, Serialize(groups[j], eol), before, index, source, insertIndex);
        j := j + 1;
      }
      assert groups[..|groups|] == groups;
    }

    /** `compile`: the buffer. */
    method Compile() returns (code: string)
      ensures code == source
    {
      code := source;
    }
  }

  /////////////////////////////////////////////////////////////////////////////
  // Properties of removal and insertion

  /**
   * One round of `insertImports`: writing `x` after a terminator `e` at the end of
   * the blocks already written extends the blocks, and the next offset is their end.
   */
  lemma InsertStep(o: string, at: nat, b: string, e: string, x: string, s: string, index: nat, s': string, edge: nat)
    requires at <= |o| && s == o[..at] + b + o[at..]
    requires Min(index, |s|) == at + |b|
    requires s' == s[..Min(index, |s|)] + e + x + s[Min(index, |s|)..]
    requires edge == Min(index, |s|) + |e| + |x|
    ensures s' == o[..at] + (b + e + x) + o[at..]
    ensures Min(edge, |s'|) == at + |b + e + x|
  {
    assert s[..at + |b|] == o[..at] + b;
    assert s[at + |b|..] == o[at..];
  }

  /** Popping the last span of the descending list reads the next gap of the ascending one. */
  lemma GapsPop(src: string, from: nat, sorted: seq<Descriptor>)
    requires sorted != []
    ensures var node := sorted[|sorted| - 1];
            Gaps(src, from, Reverse(sorted))
              == Slice(src, from, node.bounds.start) + Gaps(src, node.bounds.end, Reverse(sorted[..|sorted| - 1]))
  {
    var node := sorted[|sorted| - 1];
    assert sorted == sorted[..|sorted| - 1] + [node];
    ReverseSnoc(sorted[..|sorted| - 1], node);
    assert ([node] + Reverse(sorted[..|sorted| - 1]))[1..] == Reverse(sorted[..|sorted| - 1]);
  }

  lemma ReverseSnoc<T>(s: seq<T>, x: T)
    ensures Reverse(s + [x]) == [x] + Reverse(s)
  {
    assert Reverse(s + [x])[0] == x;
    assert forall i :: 1 <= i < |s| + 1 ==> Reverse(s + [x])[i] == Reverse(s)[i - 1];
  }

  /** The removal order lists every span once, by ascending start. */
  lemma AscendingOrder(nodes: seq<Descriptor>)
    ensures SortedBy(Ascending(nodes), StartOf, IntLe)
    ensures multiset(Ascending(nodes)) == multiset(nodes)
  {
    IntOrdersTotal();
    SortBySorted(nodes, StartOf, IntGe);
  }

  lemma {:induction false} ChainedWithin(spans: seq<Descriptor>, from: nat, limit: nat)
    requires Chained(spans, from, limit)
    ensures from <= limit
    decreases |spans|
  {
    if spans != [] {
      ChainedWithin(spans[1..], spans[0].bounds.end, limit);
    }
  }

  /** Cutting chained spans removes exactly their total length. */
  lemma {:induction false} GapsLength(src: string, from: nat, spans: seq<Descriptor>)
    requires Chained(spans, from, |src|)
    ensures |Gaps(src, from, spans)| == |src| - from - SpanTotal(spans)
    decreases |spans|
  {
    if spans != [] {
      ChainedWithin(spans[1..], spans[0].bounds.end, |src|);
      GapsLength(src, spans[0].bounds.end, spans[1..]);
    }
  }

  /** The text before the first span is kept as it is. */
  lemma GapsKeepsFront(src: string, from: nat, spans: seq<Descriptor>)
    requires Chained(spans, from, |src|) && spans != []
    ensures from <= spans[0].bounds.start <= |src|
    ensures spans[0].bounds.start - from <= |Gaps(src, from, spans)|
    ensures Gaps(src, from, spans)[..spans[0].bounds.start - from] == src[from..spans[0].bounds.start]
  {
    var a := spans[0].bounds.start;
    var e := spans[0].bounds.end;
    ChainedWithin(spans[1..], e, |src|);
    var front := Slice(src, from, a);
    assert front == src[from..a];
    assert Gaps(src, from, spans) == front + Gaps(src, e, spans[1..]);
  }

  /** The text after the last span is kept as it is. */
  lemma {:induction false} GapsKeepsBack(src: string, from: nat, spans: seq<Descriptor>)
    requires Chained(spans, from, |src|) && spans != []
    ensures spans[|spans| - 1].bounds.end <= |src|
    ensures |src| - spans[|spans| - 1].bounds.end <= |Gaps(src, from, spans)| - (spans[0].bounds.start - from)
    ensures Gaps(src, from, spans)[|Gaps(src, from, spans)| - (|src| - spans[|spans| - 1].bounds.end)..]
              == src[spans[|spans| - 1].bounds.end..]
    decreases |spans|
  {
    var a := spans[0].bounds.start;
    var e := spans[0].bounds.end;
    ChainedWithin(spans[1..], e, |src|);
    var rest := Gaps(src, e, spans[1..]);
    assert Gaps(src, from, spans) == src[from..a] + rest;
    if |spans| == 1 {
      assert rest == src[e..];
    } else {
      GapsKeepsBack(src, e, spans[1..]);
      assert spans[1..][|spans[1..]| - 1] == spans[|spans| - 1];
    }
  }

  lemma {:induction false} SpanTotalAppend(a: seq<Descriptor>, b: seq<Descriptor>)
    ensures SpanTotal(a + b) == SpanTotal(a) + SpanTotal(b)
    decreases |a|
  {
    if a == [] {
      assert a + b == b;
    } else {
      assert (a + b)[1..] == a[1..] + b;
      SpanTotalAppend(a[1..], b);
    }
  }

  lemma {:induction false} SpanTotalRemove(b: seq<Descriptor>, k: nat)
    requires k < |b|
    ensures SpanTotal(b) == b[k].bounds.end - b[k].bounds.start + SpanTotal(b[..k] + b[k + 1..])
    decreases k
  {
    if k == 0 {
      assert b[..0] + b[1..] == b[1..];
    } else {
      var t := b[1..];
      SpanTotalRemove(t, k - 1);
      assert t[k - 1] == b[k];
      assert b[..k] + b[k + 1..] == [b[0]] + (t[..k - 1] + t[k..]);
      assert ([b[0]] + (t[..k - 1] + t[k..]))[1..] == t[..k - 1] + t[k..];
    }
  }

  lemma {:induction false} SpanTotalPermutation(a: seq<Descriptor>, b: seq<Descriptor>)
    requires multiset(a) == multiset(b)
    ensures SpanTotal(a) == SpanTotal(b)
    decreases |a|
  {
    if a == [] {
      assert |b| == |multiset(b)| == 0;
    } else {
      var x := a[0];
      assert x in multiset(b);
      var k :| 0 <= k < |b| && b[k] == x;
      var a' := a[1..];
      SpanTotalRemove(b, k);
      RemoveAt(b, k);
      assert a == [x] + a';
      assert multiset(a') == multiset(b[..k] + b[k + 1..]);
      SpanTotalPermutation(a', b[..k] + b[k + 1..]);
    }
  }

  /**
   * When the spans, in ascending start order, are disjoint and lie inside the
   * buffer, `removeNodes` leaves |eol| + |source| - (total span length) characters.
   */
  lemma RemovedLength(src: string, eol: string, nodes: seq<Descriptor>)
    requires Chained(Ascending(nodes), 0, |src|)
    ensures |eol + Gaps(src, 0, Ascending(nodes))| == |eol| + |src| - SpanTotal(nodes)
  {
    GapsLength(src, 0, Ascending(nodes));
    AscendingOrder(nodes);
    SpanTotalPermutation(Ascending(nodes), nodes);
  }

  /** The inserted text is each value followed by a terminator, nothing else. */
  lemma {:induction false} SerializeLength(nodes: seq<Descriptor>, eol: string)
    ensures |Serialize(nodes, eol)| == ValueTotal(nodes) + |nodes| * |eol|
    decreases |nodes|
  {
    if nodes != [] {
      SerializeLength(nodes[..|nodes| - 1], eol);
    }
  }

  lemma {:induction false} SerializeAppend(a: seq<Descriptor>, b: seq<Descriptor>, eol: string)
    ensures Serialize(a + b, eol) == Serialize(a, eol) + Serialize(b, eol)
    decreases |b|
  {
    if b == [] {
      assert a + b == a;
    } else {
      var b' := b[..|b| - 1];
      var x := b[|b| - 1];
      assert (a + b)[..|a + b| - 1] == a + b' && (a + b)[|a + b| - 1] == x;
      SerializeAppend(a, b', eol);
      assert Serialize(a + b, eol) == (Serialize(a, eol) + Serialize(b', eol)) + x.value + eol;
    }
  }

  /** Consecutive groups land one after another, in the given order. */
  lemma {:induction false} BlocksAppend(a: seq<seq<Descriptor>>, b: seq<seq<Descriptor>>, eol: string)
    ensures Blocks(a + b, eol) == Blocks(a, eol) + Blocks(b, eol)
    decreases |b|
  {
    if b == [] {
      assert a + b == a;
    } else {
      var b' := b[..|b| - 1];
      var g := b[|b| - 1];
      assert (a + b)[..|a + b| - 1] == a + b' && (a + b)[|a + b| - 1] == g;
      BlocksAppend(a, b', eol);
      assert Blocks(a + b, eol) == (Blocks(a, eol) + Blocks(b', eol)) + eol + Serialize(g, eol);
      assert Blocks(b, eol) == Blocks(b', eol) + eol + Serialize(g, eol);
    }
  }
}
