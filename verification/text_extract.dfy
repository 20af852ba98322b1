/** `proofreadDoc`'s text extraction: text nodes are grouped, groups are laid out in one
    string, and blanks pad every gap so that index `i` of the string stands for document
    position `i + 1`. */
module TextExtract {
  import opened Wrappers
  import opened Document

  /** A run of merged text with its document range (`ITextNodesWithPosition`). */
  datatype TextSpan = TextSpan(text: string, from: int, to: int)

  predicate WellFormed(s: TextSpan) {
    s.to == s.from + |s.text|
  }

  /** Adds a text node to the group being built, or starts a group at the node. */
  function Extend(open: Option<TextSpan>, n: Node): (r: TextSpan)
    ensures WellFormed(r)
    ensures open.Some? ==> r.from == open.value.from && r.text == open.value.text + n.text
    ensures open.None? ==> r.from == n.pos && r.text == n.text
  {
    match open
    case None => TextSpan(n.text, n.pos, n.pos + |n.text|)
    case Some(o) =>
      var text := o.text + n.text;
      TextSpan(text, o.from, o.from + |text|)
  }

  function Close(open: Option<TextSpan>): seq<TextSpan> {
    if open.Some? then [open.value] else []
  }

  /** The grouping walk, with the group still open from earlier nodes: a text node joins
      the open group, any other node closes it. (The source keeps one array slot per
      count of non-text nodes seen and drops empty slots afterwards, which yields the
      same groups.) */
  function GroupsFrom(nodes: seq<Node>, open: Option<TextSpan>): (r: seq<TextSpan>)
    requires open.Some? ==> WellFormed(open.value)
    ensures forall i :: 0 <= i < |r| ==> WellFormed(r[i])
    decreases |nodes|
  {
    if |nodes| == 0 then Close(open)
    else if !nodes[0].isText then Close(open) + GroupsFrom(nodes[1..], None)
    else GroupsFrom(nodes[1..], Some(Extend(open, nodes[0])))
  }

  /** The text groups of a document walk. */
  function Groups(nodes: seq<Node>): seq<TextSpan> {
    GroupsFrom(nodes, None)
  }

  /** `Array(n + 1).join(' ')` for `n > 0`, and nothing otherwise. */
  function Spaces(n: int): (r: string)
    ensures |r| == (if n > 0 then n else 0)
    ensures forall i :: 0 <= i < |r| ==> r[i] == ' '
  {
    if n <= 0 then "" else Spaces(n - 1) + " "
  }

  /** The layout loop, from a given `lastPos` on. */
  function FlattenFrom(spans: seq<TextSpan>, lastPos: int): string
    decreases |spans|
  {
    if |spans| == 0 then ""
    else Spaces(spans[0].from - lastPos) + spans[0].text + FlattenFrom(spans[1..], spans[0].to)
  }

  /** The layout loop of `proofreadDoc`, which starts at `lastPos = 1`. */
  function Flatten(spans: seq<TextSpan>): string {
    FlattenFrom(spans, 1)
  }

  /** The string `proofreadDoc` hands to the check, together with base offset 1. */
  function ExtractText(doc: Doc): string {
    Flatten(Groups(doc.nodes))
  }

  /** The concatenated text of a sequence of nodes. */
  function AllText(nodes: seq<Node>): string {
    if |nodes| == 0 then "" else nodes[0].text + AllText(nodes[1..])
  }

  predicate AllTextNodes(nodes: seq<Node>) {
    forall i :: 0 <= i < |nodes| ==> nodes[i].isText
  }

  /** A non-text node splits the grouping: what comes before it and what comes after it
      are grouped independently. */
  lemma {:induction false} GroupsSplitAt(a: seq<Node>, n: Node, b: seq<Node>, open: Option<TextSpan>)
    requires !n.isText
    requires open.Some? ==> WellFormed(open.value)
    ensures GroupsFrom(a + [n] + b, open) == GroupsFrom(a, open) + GroupsFrom(b, None)
    decreases |a|
  {
    var all := a + [n] + b;
    if |a| == 0 {
      assert all == [n] + b && all[1..] == b;
    } else {
      assert all[0] == a[0] && all[1..] == a[1..] + [n] + b;
      if a[0].isText {
        GroupsSplitAt(a[1..], n, b, Some(Extend(open, a[0])));
      } else {
        GroupsSplitAt(a[1..], n, b, None);
      }
    }
  }

  /** Every non-text node starts a new group. */
  lemma GroupsSplit(a: seq<Node>, n: Node, b: seq<Node>)
    requires !n.isText
    ensures Groups(a + [n] + b) == Groups(a) + Groups(b)
  {
    GroupsSplitAt(a, n, b, None);
  }

  lemma {:induction false} GroupsOfTextRunFrom(nodes: seq<Node>, o: TextSpan)
    requires AllTextNodes(nodes) && WellFormed(o)
    ensures GroupsFrom(nodes, Some(o))
         == [TextSpan(o.text + AllText(nodes), o.from, o.from + |o.text + AllText(nodes)|)]
    decreases |nodes|
  {
    if |nodes| == 0 {
      assert o.text + "" == o.text;
    } else {
      var o' := Extend(Some(o), nodes[0]);
      GroupsOfTextRunFrom(nodes[1..], o');
      assert o'.text + AllText(nodes[1..]) == o.text + AllText(nodes);
    }
  }

  /** Consecutive text nodes with nothing else between them form one group: it starts at
      the first node's position, holds the combined text and ends that many characters on. */
  lemma GroupsOfTextRun(nodes: seq<Node>)
    requires |nodes| > 0 && AllTextNodes(nodes)
    ensures Groups(nodes)
         == [TextSpan(AllText(nodes), nodes[0].pos, nodes[0].pos + |AllText(nodes)|)]
  {
    var o := Extend(None, nodes[0]);
    GroupsOfTextRunFrom(nodes[1..], o);
  }

  /** A walk without text nodes has no groups, so the extracted text is empty. */
  lemma {:induction false} NoTextNoGroups(nodes: seq<Node>)
    requires forall i :: 0 <= i < |nodes| ==> !nodes[i].isText
    ensures Groups(nodes) == []
    ensures Flatten(Groups(nodes)) == ""
  {
    if |nodes| > 0 {
      NoTextNoGroups(nodes[1..]);
    }
  }

  /** A node-by-node layout with no grouping: each text node is padded from where the
      previous text node ended. */
  function RenderFrom(nodes: seq<Node>, lastPos: int): string
    decreases |nodes|
  {
    if |nodes| == 0 then ""
    else if !nodes[0].isText then RenderFrom(nodes[1..], lastPos)
    else Spaces(nodes[0].pos - lastPos) + nodes[0].text + RenderFrom(nodes[1..], nodes[0].pos + |nodes[0].text|)
  }

  /** Text nodes that follow each other in the walk also follow each other in the document:
      no inline node with content lies between them. */
  predicate Contiguous(nodes: seq<Node>) {
    forall i :: 0 <= i < |nodes| - 1 && nodes[i].isText && nodes[i + 1].isText ==>
      nodes[i + 1].pos == nodes[i].pos + |nodes[i].text|
  }

  /** Text nodes sit at or after `base` and do not overlap, in walk order. */
  predicate OrderedFrom(nodes: seq<Node>, base: int) {
    && (forall i :: 0 <= i < |nodes| && nodes[i].isText ==> nodes[i].pos >= base)
    && (forall i, j :: 0 <= i < j < |nodes| && nodes[i].isText && nodes[j].isText ==>
          nodes[i].pos + |nodes[i].text| <= nodes[j].pos)
  }

  lemma ContiguousTail(nodes: seq<Node>)
    requires |nodes| > 0 && Contiguous(nodes)
    ensures Contiguous(nodes[1..])
  {
    var rest := nodes[1..];
    forall i | 0 <= i < |rest| - 1 && rest[i].isText && rest[i + 1].isText
      ensures rest[i + 1].pos == rest[i].pos + |rest[i].text|
    {
      assert rest[i] == nodes[i + 1] && rest[i + 1] == nodes[i + 2];
    }
  }

  /** Merging contiguous text nodes into groups does not change the layout. */
  lemma {:induction false} MergeInvisible(nodes: seq<Node>, lastPos: int)
    requires Contiguous(nodes)
    ensures FlattenFrom(Groups(nodes), lastPos) == RenderFrom(nodes, lastPos)
    decreases |nodes|, 2
  {
    if |nodes| > 0 {
      var rest := nodes[1..];
      ContiguousTail(nodes);
      if !nodes[0].isText {
        MergeInvisible(rest, lastPos);
        assert Groups(nodes) == Close(None) + GroupsFrom(rest, None);
        assert Close(None) + GroupsFrom(rest, None) == Groups(rest);
        assert RenderFrom(nodes, lastPos) == RenderFrom(rest, lastPos);
      } else {
        var o := Extend(None, nodes[0]);
        MergeInvisibleOpen(rest, o, lastPos);
        assert Groups(nodes) == GroupsFrom(rest, Some(o));
      }
    }
  }

  /** The same, with a group already open that the next text node continues. */
  lemma {:induction false} MergeInvisibleOpen(nodes: seq<Node>, o: TextSpan, lastPos: int)
    requires Contiguous(nodes) && WellFormed(o)
    requires |nodes| > 0 && nodes[0].isText ==> nodes[0].pos == o.to
    ensures FlattenFrom(GroupsFrom(nodes, Some(o)), lastPos)
         == Spaces(o.from - lastPos) + o.text + RenderFrom(nodes, o.to)
    decreases |nodes|, 1
  {
    if |nodes| == 0 {
      assert GroupsFrom(nodes, Some(o)) == [o];
      assert FlattenFrom([o], lastPos) == Spaces(o.from - lastPos) + o.text + "";
    } else {
      var rest := nodes[1..];
      ContiguousTail(nodes);
      if !nodes[0].isText {
        MergeInvisibleClose(nodes, o, lastPos);
      } else {
        var o' := Extend(Some(o), nodes[0]);
        assert |rest| > 0 && rest[0].isText ==> rest[0].pos == o'.to;
        MergeInvisibleOpen(rest, o', lastPos);
        MergeInvisibleJoin(nodes, o, lastPos);
      }
    }
  }

  /** A non-text node closes the open group. */
  lemma {:induction false} MergeInvisibleClose(nodes: seq<Node>, o: TextSpan, lastPos: int)
    requires Contiguous(nodes) && WellFormed(o)
    requires |nodes| > 0 && !nodes[0].isText
    ensures FlattenFrom(GroupsFrom(nodes, Some(o)), lastPos)
         == Spaces(o.from - lastPos) + o.text + RenderFrom(nodes, o.to)
    decreases |nodes|, 0
  {
    var rest := nodes[1..];
    ContiguousTail(nodes);
    MergeInvisible(rest, o.to);
    var g := GroupsFrom(rest, None);
    assert GroupsFrom(nodes, Some(o)) == [o] + g;
    assert ([o] + g)[0] == o && ([o] + g)[1..] == g;
  }

  /** A contiguous text node joins the open group without changing the layout. */
  lemma MergeInvisibleJoin(nodes: seq<Node>, o: TextSpan, lastPos: int)
    requires WellFormed(o) && |nodes| > 0 && nodes[0].isText && nodes[0].pos == o.to
    requires var o' := Extend(Some(o), nodes[0]);
      FlattenFrom(GroupsFrom(nodes[1..], Some(o')), lastPos)
      == Spaces(o'.from - lastPos) + o'.text + RenderFrom(nodes[1..], o'.to)
    ensures FlattenFrom(GroupsFrom(nodes, Some(o)), lastPos)
         == Spaces(o.from - lastPos) + o.text + RenderFrom(nodes, o.to)
  {
    var o' := Extend(Some(o), nodes[0]);
    var rest := nodes[1..];
    GroupsJoin(nodes, o);
    RenderJoin(nodes, o.to);
    Regroup(Spaces(o.from - lastPos), o.text, nodes[0].text, RenderFrom(rest, o'.to));
  }

  lemma Regroup(pad: string, a: string, b: string, tail: string)
    ensures pad + (a + b) + tail == pad + a + (b + tail)
  {
  }

  lemma GroupsJoin(nodes: seq<Node>, o: TextSpan)
    requires WellFormed(o) && |nodes| > 0 && nodes[0].isText
    ensures GroupsFrom(nodes, Some(o)) == GroupsFrom(nodes[1..], Some(Extend(Some(o), nodes[0])))
  {
  }

  /** A text node that starts where the layout stands adds its text and nothing else. */
  lemma RenderJoin(nodes: seq<Node>, lastPos: int)
    requires |nodes| > 0 && nodes[0].isText && nodes[0].pos == lastPos
    ensures RenderFrom(nodes, lastPos) == nodes[0].text + RenderFrom(nodes[1..], lastPos + |nodes[0].text|)
  {
    assert Spaces(nodes[0].pos - lastPos) == "";
  }

  /** Some text node covers offset `p` of a layout that starts at `base`. */
  predicate Covered(nodes: seq<Node>, base: int, p: int) {
    exists j :: 0 <= j < |nodes| && nodes[j].isText && nodes[j].pos - base <= p < nodes[j].pos - base + |nodes[j].text|
  }

  /** Where the layout of the remaining nodes resumes after the first node. */
  function NextBase(nodes: seq<Node>, base: int): int
    requires |nodes| > 0
  {
    if nodes[0].isText then nodes[0].pos + |nodes[0].text| else base
  }

  lemma OrderedTail(nodes: seq<Node>, base: int)
    requires |nodes| > 0 && OrderedFrom(nodes, base)
    ensures OrderedFrom(nodes[1..], NextBase(nodes, base))
  {
    var rest := nodes[1..];
    forall i | 0 <= i < |rest| && rest[i].isText
      ensures rest[i].pos >= NextBase(nodes, base)
    {
      assert rest[i] == nodes[i + 1];
    }
    forall i, j | 0 <= i < j < |rest| && rest[i].isText && rest[j].isText
      ensures rest[i].pos + |rest[i].text| <= rest[j].pos
    {
      assert rest[i] == nodes[i + 1] && rest[j] == nodes[j + 1];
    }
  }

  lemma ConcatIndex(a: string, b: string, c: string, i: int)
    requires 0 <= i < |a| + |b| + |c|
    ensures (a + b + c)[i] == (if i < |a| then a[i] else if i < |a| + |b| then b[i - |a|] else c[i - |a| - |b|])
  {
  }

  /** The layout of nodes starting with a text node: its padding, its text, the rest. */
  lemma RenderTextHead(nodes: seq<Node>, base: int)
    requires |nodes| > 0 && nodes[0].isText
    ensures RenderFrom(nodes, base)
         == Spaces(nodes[0].pos - base) + nodes[0].text + RenderFrom(nodes[1..], NextBase(nodes, base))
  {
  }

  /** The layout reaches at least to the end of every text node. */
  lemma {:induction false} RenderEndAt(nodes: seq<Node>, base: int, j: int)
    requires OrderedFrom(nodes, base)
    requires 0 <= j < |nodes| && nodes[j].isText
    ensures nodes[j].pos - base + |nodes[j].text| <= |RenderFrom(nodes, base)|
    decreases |nodes|
  {
    var n := nodes[0];
    var rest := nodes[1..];
    var next := NextBase(nodes, base);
    OrderedTail(nodes, base);
    if !n.isText {
      assert rest[j - 1] == nodes[j];
      RenderEndAt(rest, base, j - 1);
    } else {
      RenderTextHead(nodes, base);
      if j > 0 {
        assert rest[j - 1] == nodes[j];
        RenderEndAt(rest, next, j - 1);
      }
    }
  }

  /** Offset `q` of the layout after a leading text node is offset `q + next - base` of
      the whole layout. */
  lemma RenderAfterHead(nodes: seq<Node>, base: int, q: int)
    requires |nodes| > 0 && nodes[0].isText && nodes[0].pos >= base
    requires 0 <= q < |RenderFrom(nodes[1..], NextBase(nodes, base))|
    ensures var i := q + NextBase(nodes, base) - base;
      0 <= i < |RenderFrom(nodes, base)| && RenderFrom(nodes, base)[i] == RenderFrom(nodes[1..], NextBase(nodes, base))[q]
  {
    var n := nodes[0];
    var pad := Spaces(n.pos - base);
    RenderTextHead(nodes, base);
    ConcatIndex(pad, n.text, RenderFrom(nodes[1..], NextBase(nodes, base)), |pad| + |n.text| + q);
  }

  /** Character `k` of text node `j` lands at offset `pos - base + k` of the layout. */
  lemma {:induction false} RenderCharAt(nodes: seq<Node>, base: int, j: int, k: int)
    requires OrderedFrom(nodes, base)
    requires 0 <= j < |nodes| && nodes[j].isText && 0 <= k < |nodes[j].text|
    ensures 0 <= nodes[j].pos - base + k < |RenderFrom(nodes, base)|
    ensures RenderFrom(nodes, base)[nodes[j].pos - base + k] == nodes[j].text[k]
    decreases |nodes|
  {
    var n := nodes[0];
    var rest := nodes[1..];
    var next := NextBase(nodes, base);
    OrderedTail(nodes, base);
    if !n.isText {
      assert rest[j - 1] == nodes[j];
      RenderCharAt(rest, base, j - 1, k);
    } else {
      if j == 0 {
        RenderCharAtHead(nodes, base, k);
      } else {
        assert rest[j - 1] == nodes[j];
        RenderCharAt(rest, next, j - 1, k);
        RenderAfterHead(nodes, base, nodes[j].pos - next + k);
      }
    }
  }

  /** Character `k` of a leading text node lands right after its padding. */
  lemma RenderCharAtHead(nodes: seq<Node>, base: int, k: int)
    requires |nodes| > 0 && nodes[0].isText && nodes[0].pos >= base && 0 <= k < |nodes[0].text|
    ensures 0 <= nodes[0].pos - base + k < |RenderFrom(nodes, base)|
    ensures RenderFrom(nodes, base)[nodes[0].pos - base + k] == nodes[0].text[k]
  {
    var n := nodes[0];
    RenderTextHead(nodes, base);
    ConcatIndex(Spaces(n.pos - base), n.text, RenderFrom(nodes[1..], NextBase(nodes, base)), n.pos - base + k);
  }

  /** Coverage of the remaining nodes carries over to the whole walk. */
  lemma CoveredTail(nodes: seq<Node>, base: int, q: int)
    requires |nodes| > 0 && Covered(nodes[1..], NextBase(nodes, base), q)
    ensures Covered(nodes, base, q + NextBase(nodes, base) - base)
  {
    var rest := nodes[1..];
    var next := NextBase(nodes, base);
    var j :| 0 <= j < |rest| && rest[j].isText && rest[j].pos - next <= q < rest[j].pos - next + |rest[j].text|;
    assert nodes[j + 1] == rest[j];
    var p := q + next - base;
    assert nodes[j + 1].isText && nodes[j + 1].pos - base <= p < nodes[j + 1].pos - base + |nodes[j + 1].text|;
  }

  /** A text node at the head covers its own characters. */
  lemma CoveredHead(nodes: seq<Node>, base: int, p: int)
    requires |nodes| > 0 && nodes[0].isText
    requires nodes[0].pos - base <= p < nodes[0].pos - base + |nodes[0].text|
    ensures Covered(nodes, base, p)
  {
  }

  /** An offset of the layout that no text node covers holds a blank. */
  lemma {:induction false} RenderBlankAt(nodes: seq<Node>, base: int, p: int)
    requires OrderedFrom(nodes, base)
    requires 0 <= p < |RenderFrom(nodes, base)| && !Covered(nodes, base, p)
    ensures RenderFrom(nodes, base)[p] == ' '
    decreases |nodes|
  {
    var n := nodes[0];
    var rest := nodes[1..];
    var next := NextBase(nodes, base);
    OrderedTail(nodes, base);
    if !n.isText {
      if Covered(rest, base, p) {
        CoveredTail(nodes, base, p);
        assert false;
      }
      RenderBlankAt(rest, base, p);
    } else {
      var pad := Spaces(n.pos - base);
      var r' := RenderFrom(rest, next);
      RenderTextHead(nodes, base);
      ConcatIndex(pad, n.text, r', p);
      if p < |pad| {
      } else if p < |pad| + |n.text| {
        CoveredHead(nodes, base, p);
        assert false;
      } else {
        var q := p - |pad| - |n.text|;
        if Covered(rest, next, q) {
          CoveredTail(nodes, base, q);
          assert false;
        }
        RenderBlankAt(rest, next, q);
      }
    }
  }

  /** The extracted text is aligned with the document: when text nodes consecutive in
      the walk are adjacent in the document and text nodes sit at position 1 or later without overlapping, character
      `k` of a text node at position `pos` is character `pos - 1 + k` of the extracted
      text, every other character is a blank, and an empty document gives `""`. */
  lemma ExtractAligned(doc: Doc)
    requires Contiguous(doc.nodes) && OrderedFrom(doc.nodes, 1)
    ensures forall j :: 0 <= j < |doc.nodes| && doc.nodes[j].isText ==>
      1 <= doc.nodes[j].pos && doc.nodes[j].pos - 1 + |doc.nodes[j].text| <= |ExtractText(doc)|
    ensures forall j, k :: 0 <= j < |doc.nodes| && doc.nodes[j].isText && 0 <= k < |doc.nodes[j].text| ==>
      ExtractText(doc)[doc.nodes[j].pos - 1 + k] == doc.nodes[j].text[k]
    ensures forall p :: 0 <= p < |ExtractText(doc)| && !Covered(doc.nodes, 1, p) ==> ExtractText(doc)[p] == ' '
    ensures |doc.nodes| == 0 ==> ExtractText(doc) == ""
  {
    MergeInvisible(doc.nodes, 1);
    assert ExtractText(doc) == RenderFrom(doc.nodes, 1);
    forall j | 0 <= j < |doc.nodes| && doc.nodes[j].isText
      ensures doc.nodes[j].pos - 1 + |doc.nodes[j].text| <= |ExtractText(doc)|
    {
      RenderEndAt(doc.nodes, 1, j);
    }
    forall j, k | 0 <= j < |doc.nodes| && doc.nodes[j].isText && 0 <= k < |doc.nodes[j].text|
      ensures ExtractText(doc)[doc.nodes[j].pos - 1 + k] == doc.nodes[j].text[k]
    {
      RenderCharAt(doc.nodes, 1, j, k);
    }
    forall p | 0 <= p < |ExtractText(doc)| && !Covered(doc.nodes, 1, p)
      ensures ExtractText(doc)[p] == ' '
    {
      RenderBlankAt(doc.nodes, 1, p);
    }
  }

  /** The extraction with each text node laid out on its own, padded from where the
      previous text node ended: nodes that touch still run together, and nodes that do
      not are never merged. */
  function ExtractTextByNode(doc: Doc): string {
    RenderFrom(doc.nodes, 1)
  }

  /** Laid out node by node, the text is aligned with the document for every walk whose
      text nodes sit at position 1 or later without overlapping, contiguous or not. */
  lemma ExtractTextByNodeAligned(doc: Doc)
    requires OrderedFrom(doc.nodes, 1)
    ensures forall j :: 0 <= j < |doc.nodes| && doc.nodes[j].isText ==>
      doc.nodes[j].pos - 1 + |doc.nodes[j].text| <= |ExtractTextByNode(doc)|
    ensures forall j, k :: 0 <= j < |doc.nodes| && doc.nodes[j].isText && 0 <= k < |doc.nodes[j].text| ==>
      ExtractTextByNode(doc)[doc.nodes[j].pos - 1 + k] == doc.nodes[j].text[k]
    ensures forall p :: 0 <= p < |ExtractTextByNode(doc)| && !Covered(doc.nodes, 1, p) ==> ExtractTextByNode(doc)[p] == ' '
  {
    forall j | 0 <= j < |doc.nodes| && doc.nodes[j].isText
      ensures doc.nodes[j].pos - 1 + |doc.nodes[j].text| <= |ExtractTextByNode(doc)|
    {
      RenderEndAt(doc.nodes, 1, j);
    }
    forall j, k | 0 <= j < |doc.nodes| && doc.nodes[j].isText && 0 <= k < |doc.nodes[j].text|
      ensures ExtractTextByNode(doc)[doc.nodes[j].pos - 1 + k] == doc.nodes[j].text[k]
    {
      RenderCharAt(doc.nodes, 1, j, k);
    }
    forall p | 0 <= p < |ExtractTextByNode(doc)| && !Covered(doc.nodes, 1, p)
      ensures ExtractTextByNode(doc)[p] == ' '
    {
      RenderBlankAt(doc.nodes, 1, p);
    }
  }

  /** The walk of `<p>ab<span>cd</span>ef</p>`, the inline `span` being a node with
      content: `cd` and `ef` are consecutive text nodes of the walk but not neighbours in
      the document. */
  function InlineWalk(): seq<Node> {
    [Node(false, true, 0, 10, "abcdef"), Node(true, false, 1, 2, "ab"),
     Node(false, false, 3, 4, "cd"), Node(true, false, 4, 2, "cd"), Node(true, false, 7, 2, "ef")]
  }

  lemma InlineWalkGroups()
    ensures Groups(InlineWalk()) == [TextSpan("ab", 1, 3), TextSpan("cdef", 4, 8)]
  {
    var nodes := InlineWalk();
    assert nodes[1..][1..] == nodes[2..];
    assert nodes[2..][1..] == nodes[3..];
    assert nodes[3..][1..] == nodes[4..];
    assert nodes[4..][1..] == [];
    var ab, cd, cdef := TextSpan("ab", 1, 3), TextSpan("cd", 4, 6), TextSpan("cdef", 4, 8);
    assert Extend(Some(cd), nodes[4]) == cdef by {
      assert cd.text + nodes[4].text == "cdef";
    }
    assert GroupsFrom(nodes[4..], Some(cd)) == [cdef];
    assert GroupsFrom(nodes[3..], None) == [cdef];
    assert GroupsFrom(nodes[2..], Some(ab)) == [ab] + [cdef];
    assert GroupsFrom(nodes[1..], None) == [ab, cdef];
  }

  lemma InlineWalkFlatten()
    ensures Flatten([TextSpan("ab", 1, 3), TextSpan("cdef", 4, 8)]) == "ab cdef"
  {
    var spans := [TextSpan("ab", 1, 3), TextSpan("cdef", 4, 8)];
    assert spans[1..] == [TextSpan("cdef", 4, 8)];
    assert Spaces(1) == " ";
    assert FlattenFrom(spans, 1) == "" + "ab" + (" " + "cdef" + "");
  }

  lemma InlineWalkByNode()
    ensures RenderFrom(InlineWalk(), 1) == "ab cd ef"
  {
    var nodes := InlineWalk();
    assert nodes[1..][1..] == nodes[2..];
    assert nodes[2..][1..] == nodes[3..];
    assert nodes[3..][1..] == nodes[4..];
    assert nodes[4..][1..] == [];
    assert Spaces(1) == " ";
    assert RenderFrom(nodes[4..], 6) == " " + "ef" + "";
    assert RenderFrom(nodes[3..], 3) == " " + "cd" + RenderFrom(nodes[4..], 6);
    assert RenderFrom(nodes[1..], 1) == "" + "ab" + RenderFrom(nodes[2..], 3);
  }

  /** On that walk the grouping merges `cd` and `ef`, so `ef` (position 7) starts at index
      5 of the extracted text instead of 6; laid out node by node it starts at index 6. */
  lemma InlineContentMisaligned()
    ensures var nodes := InlineWalk();
      && OrderedFrom(nodes, 1) && !Contiguous(nodes)
      && ExtractText(Doc(nodes)) == "ab cdef"
      && ExtractText(Doc(nodes))[nodes[4].pos - 1] != nodes[4].text[0]
      && ExtractTextByNode(Doc(nodes)) == "ab cd ef"
      && ExtractTextByNode(Doc(nodes))[nodes[4].pos - 1] == nodes[4].text[0]
  {
    InlineWalkGroups();
    InlineWalkFlatten();
    InlineWalkByNode();
    var nodes := InlineWalk();
    assert !(nodes[4].pos == nodes[3].pos + |nodes[3].text|);
  }

  /** The walk a list of spans would come from: one text node per span. */
  function SpanNodes(spans: seq<TextSpan>): seq<Node> {
    seq(|spans|, i requires 0 <= i < |spans| => Node(true, false, spans[i].from, |spans[i].text|, spans[i].text))
  }

  lemma {:induction false} FlattenIsRender(spans: seq<TextSpan>, lastPos: int)
    requires forall i :: 0 <= i < |spans| ==> WellFormed(spans[i])
    ensures FlattenFrom(spans, lastPos) == RenderFrom(SpanNodes(spans), lastPos)
    decreases |spans|
  {
    if |spans| > 0 {
      FlattenIsRender(spans[1..], spans[0].to);
      assert SpanNodes(spans)[1..] == SpanNodes(spans[1..]);
    }
  }

  /** For well-formed spans in order, not overlapping and starting at position 1 or later,
      character `k` of span `i` lands at index `from - 1 + k` of the flattened string. */
  lemma FlattenAligned(spans: seq<TextSpan>)
    requires forall i :: 0 <= i < |spans| ==> WellFormed(spans[i]) && spans[i].from >= 1
    requires forall i :: 0 <= i < |spans| - 1 ==> spans[i].to <= spans[i + 1].from
    ensures forall i :: 0 <= i < |spans| ==> spans[i].from - 1 + |spans[i].text| <= |Flatten(spans)|
    ensures forall i, k :: 0 <= i < |spans| && 0 <= k < |spans[i].text| ==>
      Flatten(spans)[spans[i].from - 1 + k] == spans[i].text[k]
  {
    var nodes := SpanNodes(spans);
    assert OrderedFrom(nodes, 1) by {
      forall i, j | 0 <= i < j < |nodes|
        ensures nodes[i].pos + |nodes[i].text| <= nodes[j].pos
      {
        SpansSorted(spans, i, j);
      }
    }
    FlattenIsRender(spans, 1);
    forall i | 0 <= i < |spans|
      ensures spans[i].from - 1 + |spans[i].text| <= |Flatten(spans)|
    {
      assert nodes[i].pos == spans[i].from && nodes[i].text == spans[i].text;
      RenderEndAt(nodes, 1, i);
    }
    forall i, k | 0 <= i < |spans| && 0 <= k < |spans[i].text|
      ensures Flatten(spans)[spans[i].from - 1 + k] == spans[i].text[k]
    {
      assert nodes[i].pos == spans[i].from && nodes[i].text == spans[i].text;
      RenderCharAt(nodes, 1, i, k);
    }
  }

  lemma {:induction false} SpansSorted(spans: seq<TextSpan>, i: int, j: int)
    requires forall i :: 0 <= i < |spans| ==> WellFormed(spans[i])
    requires forall i :: 0 <= i < |spans| - 1 ==> spans[i].to <= spans[i + 1].from
    requires 0 <= i < j < |spans|
    ensures spans[i].to <= spans[j].from
    decreases j - i
  {
    if j > i + 1 {
      SpansSorted(spans, i, j - 1);
    }
  }
}
