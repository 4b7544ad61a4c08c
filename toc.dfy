/** The TOC linearizer: `getChaptersFromTOC` turns the nested TOC of a
    bookizip manifest into a flat list of (title, url, is-section) triples in
    pre-order.  Nodes are addressed by paths of sibling indices, and the
    lemmas below say where each node's triple lands in the flat list. */
module Toc {
  import opened Wrappers

  /** A node of the TOC as read from `info.json`.  Every key may be missing;
      an absent, `None` or empty `children` list are all the empty sequence,
      since the source only recurses when `elem.get('children')` is truthy. */
  datatype TocNode = TocNode(title: Option<string>, url: Option<string>, kind: Option<string>, children: seq<TocNode>)

  /** One triple of the flat list: `(title, url, is_this_chapter_really_a_booki_section)`. */
  datatype TocEntry = TocEntry(title: string, url: string, isSection: bool)

  const MissingTitle: string := "Missing title"
  const MissingUrl: string := "Missing URL"
  const ChapterType: string := "chapter"
  const SectionType: string := "booki-section"

  function EntryOf(n: TocNode): TocEntry {
    TocEntry(n.title.GetOr(MissingTitle), n.url.GetOr(MissingUrl), n.kind.GetOr(ChapterType) == SectionType)
  }

  /** The number of nodes in a forest. */
  function Size(toc: seq<TocNode>): nat {
    if toc == [] then 0 else 1 + Size(toc[0].children) + Size(toc[1..])
  }

  /** `getChaptersFromTOC(toc)`: each node's triple, then its children's, then
      the following siblings'.  There is one triple per node. */
  function Linearize(toc: seq<TocNode>): (r: seq<TocEntry>)
    ensures |r| == Size(toc)
  {
    if toc == [] then [] else [EntryOf(toc[0])] + Linearize(toc[0].children) + Linearize(toc[1..])
  }

  /** `p` leads from the top-level list to a node: `p[0]` is a top-level
      index, `p[1]` an index among that node's children, and so on. */
  ghost predicate ValidPath(toc: seq<TocNode>, p: seq<nat>)
    decreases |p|
  {
    |p| >= 1 && p[0] < |toc| && (|p| == 1 || ValidPath(toc[p[0]].children, p[1..]))
  }

  ghost function NodeAt(toc: seq<TocNode>, p: seq<nat>): TocNode
    requires ValidPath(toc, p)
    decreases |p|
  {
    if |p| == 1 then toc[p[0]] else NodeAt(toc[p[0]].children, p[1..])
  }

  /** Where a pre-order walk visits the node at `p`: every node of the
      earlier siblings' subtrees comes first, then the node itself, then
      (for a deeper path) the part of its own subtree before the target. */
  ghost function Index(toc: seq<TocNode>, p: seq<nat>): nat
    requires ValidPath(toc, p)
    decreases |p|
  {
    Size(toc[..p[0]]) + (if |p| == 1 then 0 else 1 + Index(toc[p[0]].children, p[1..]))
  }

  /** Path `p` comes before path `q` in pre-order: `p` is a proper prefix of
      `q` (an ancestor), or where they first differ `p` has the smaller
      sibling index (an earlier sibling, or a node inside an earlier
      sibling's subtree). */
  predicate Precedes(p: seq<nat>, q: seq<nat>)
    decreases |p|
  {
    q != [] && (p == [] || p[0] < q[0] || (p[0] == q[0] && Precedes(p[1..], q[1..])))
  }

  lemma {:induction false} SizeAppend(a: seq<TocNode>, b: seq<TocNode>)
    ensures Size(a + b) == Size(a) + Size(b)
    decreases |a|
  {
    if a != [] {
      assert (a + b)[0] == a[0];
      assert (a + b)[1..] == a[1..] + b;
      SizeAppend(a[1..], b);
    } else {
      assert a + b == b;
    }
  }

  lemma {:induction false} LinearizeAppend(a: seq<TocNode>, b: seq<TocNode>)
    ensures Linearize(a + b) == Linearize(a) + Linearize(b)
    decreases |a|
  {
    if a != [] {
      assert (a + b)[0] == a[0];
      assert (a + b)[1..] == a[1..] + b;
      LinearizeAppend(a[1..], b);
    } else {
      assert a + b == b;
    }
  }

  /** Size of a prefix that ends just after sibling `i`. */
  lemma SizeUpToSibling(toc: seq<TocNode>, i: nat)
    requires i < |toc|
    ensures Size(toc[..i + 1]) == Size(toc[..i]) + 1 + Size(toc[i].children)
  {
    assert toc[..i + 1] == toc[..i] + [toc[i]];
    SizeAppend(toc[..i], [toc[i]]);
  }

  lemma {:induction false} SizePrefixMonotone(toc: seq<TocNode>, i: nat, j: nat)
    requires i <= j <= |toc|
    ensures Size(toc[..i]) <= Size(toc[..j])
  {
    assert toc[..j] == toc[..i] + toc[i..j];
    SizeAppend(toc[..i], toc[i..j]);
  }

  /** Every path's position lies inside the flat list. */
  lemma {:induction false} IndexBound(toc: seq<TocNode>, p: seq<nat>)
    requires ValidPath(toc, p)
    ensures Index(toc, p) < Size(toc)
    decreases |p|
  {
    var i := p[0];
    SizeUpToSibling(toc, i);
    SizePrefixMonotone(toc, i + 1, |toc|);
    assert toc[..|toc|] == toc;
    if |p| > 1 {
      IndexBound(toc[i].children, p[1..]);
    }
  }

  /** The triple at a node's position is that node's, with the defaults of
      `elem.get`: a missing title or url becomes "Missing title" or
      "Missing URL", and the triple marks a section exactly when the type is
      "booki-section". */
  lemma EntryAtIndex(toc: seq<TocNode>, p: seq<nat>)
    requires ValidPath(toc, p)
    ensures Index(toc, p) < |Linearize(toc)|
    ensures var e, n := Linearize(toc)[Index(toc, p)], NodeAt(toc, p);
            && e.title == (if n.title.Some? then n.title.value else MissingTitle)
            && e.url == (if n.url.Some? then n.url.value else MissingUrl)
            && (e.isSection <==> n.kind == Some(SectionType))
  {
    LinearizeAtIndex(toc, p);
  }

  /** The flat list around top-level node `i`: the earlier siblings'
      triples, the node's own, its children's, then the later siblings'. */
  lemma LinearizeAround(toc: seq<TocNode>, i: nat)
    requires i < |toc|
    ensures Linearize(toc) == Linearize(toc[..i]) + ([EntryOf(toc[i])] + Linearize(toc[i].children) + Linearize(toc[i + 1..]))
  {
    var a, b := toc[..i], toc[i..];
    SplitAt(toc, i);
    LinearizeAppend(a, b);
    assert Linearize(b) == [EntryOf(toc[i])] + Linearize(toc[i].children) + Linearize(toc[i + 1..]) by {
      LinearizeCons(b);
      assert b[0] == toc[i] && b[1..] == toc[i + 1..];
    }
  }

  lemma SplitAt(toc: seq<TocNode>, i: nat)
    requires i <= |toc|
    ensures toc == toc[..i] + toc[i..]
  {
  }

  lemma LinearizeCons(toc: seq<TocNode>)
    requires toc != []
    ensures Linearize(toc) == [EntryOf(toc[0])] + Linearize(toc[0].children) + Linearize(toc[1..])
  {
  }


  /** The triple at a node's position is the node's own triple. */
  lemma {:induction false} LinearizeAtIndex(toc: seq<TocNode>, p: seq<nat>)
    requires ValidPath(toc, p)
    ensures Index(toc, p) < |Linearize(toc)|
    ensures Linearize(toc)[Index(toc, p)] == EntryOf(NodeAt(toc, p))
    decreases |p|
  {
    var i := p[0];
    IndexBound(toc, p);
    LinearizeAround(toc, i);
    var pre := Linearize(toc[..i]);
    var ch := Linearize(toc[i].children);
    var tail := [EntryOf(toc[i])] + ch + Linearize(toc[i + 1..]);
    if |p| == 1 {
      EntryAfter(pre, tail, 0);
    } else {
      LinearizeAtIndex(toc[i].children, p[1..]);
      var x := Index(toc[i].children, p[1..]);
      assert tail[1 + x] == ch[x];
      EntryAfter(pre, tail, 1 + x);
    }
  }

  /** Position `|pre| + x` of `pre + tail` holds `tail[x]`. */
  lemma EntryAfter(pre: seq<TocEntry>, tail: seq<TocEntry>, x: nat)
    requires x < |tail|
    ensures (pre + tail)[|pre| + x] == tail[x]
  {
  }



  /** Pre-order: a node is listed before all its descendants, and siblings
      (with their whole subtrees) keep their input order. */
  lemma {:induction false} PreorderRespected(toc: seq<TocNode>, p: seq<nat>, q: seq<nat>)
    requires ValidPath(toc, p) && ValidPath(toc, q)
    requires Precedes(p, q)
    ensures Index(toc, p) < Index(toc, q)
    decreases |p|
  {
    var i, j := p[0], q[0];
    if i < j {
      SizeUpToSibling(toc, i);
      SizePrefixMonotone(toc, i + 1, j);
      if |p| > 1 {
        IndexBound(toc[i].children, p[1..]);
      }
    } else if |p| > 1 {
      PreorderRespected(toc[i].children, p[1..], q[1..]);
    }
  }

  /** Any two different paths are ordered one way or the other. */
  lemma {:induction false} PrecedesTotal(p: seq<nat>, q: seq<nat>)
    requires p != q
    ensures Precedes(p, q) || Precedes(q, p)
    decreases |p|
  {
    if p != [] && q != [] && p[0] == q[0] {
      assert p[1..] != q[1..];
      PrecedesTotal(p[1..], q[1..]);
    }
  }

  /** Different nodes land at different positions. */
  lemma IndexInjective(toc: seq<TocNode>, p: seq<nat>, q: seq<nat>)
    requires ValidPath(toc, p) && ValidPath(toc, q) && p != q
    ensures Index(toc, p) != Index(toc, q)
  {
    PrecedesTotal(p, q);
    if Precedes(p, q) {
      PreorderRespected(toc, p, q);
    } else {
      PreorderRespected(toc, q, p);
    }
  }

  /** Every position of the flat list belongs to some node: with
      `IndexInjective` and `EntryAtIndex`, the flat list is exactly the nodes
      in pre-order, one triple each. */
  lemma {:induction false} EveryEntryHasANode(toc: seq<TocNode>, k: nat)
    requires k < |Linearize(toc)|
    ensures exists p :: ValidPath(toc, p) && Index(toc, p) == k
    decreases toc
  {
    var ch := toc[0].children;
    if k == 0 {
      assert toc[..0] == [];
      assert ValidPath(toc, [0]) && Index(toc, [0]) == 0;
    } else if k <= Size(ch) {
      EveryEntryHasANode(ch, k - 1);
      var p' :| ValidPath(ch, p') && Index(ch, p') == k - 1;
      ChildPath(toc, p');
    } else {
      var rest := toc[1..];
      EveryEntryHasANode(rest, k - 1 - Size(ch));
      var p' :| ValidPath(rest, p') && Index(rest, p') == k - 1 - Size(ch);
      SiblingPath(toc, p');
    }
  }

  /** A path into the first node's children, seen from the whole list. */
  lemma ChildPath(toc: seq<TocNode>, p': seq<nat>)
    requires toc != [] && ValidPath(toc[0].children, p')
    ensures ValidPath(toc, [0] + p') && Index(toc, [0] + p') == 1 + Index(toc[0].children, p')
  {
    var p := [0] + p';
    assert p[1..] == p';
    assert toc[..0] == [];
  }

  /** A path into the later siblings, seen from the whole list: it skips the
      first node and its subtree. */
  lemma SiblingPath(toc: seq<TocNode>, p': seq<nat>)
    requires toc != [] && ValidPath(toc[1..], p')
    ensures ValidPath(toc, [p'[0] + 1] + p'[1..])
    ensures Index(toc, [p'[0] + 1] + p'[1..]) == 1 + Size(toc[0].children) + Index(toc[1..], p')
  {
    var j := p'[0];
    var p := [j + 1] + p'[1..];
    assert p[0] == j + 1 && p[1..] == p'[1..] && |p| == |p'|;
    assert toc[j + 1] == toc[1..][j];
    SizeConsPrefix(toc, j);
  }

  /** The nodes before sibling `j + 1`: the first node's subtree, then the
      nodes before sibling `j` of the rest. */
  lemma SizeConsPrefix(toc: seq<TocNode>, j: nat)
    requires j < |toc| - 1
    ensures Size(toc[..j + 1]) == 1 + Size(toc[0].children) + Size(toc[1..][..j])
  {
    assert toc[..j + 1] == [toc[0]] + toc[1..][..j];
    SizeAppend([toc[0]], toc[1..][..j]);
    assert Size([toc[0]]) == 1 + Size(toc[0].children) by {
      assert [toc[0]][1..] == [];
    }
  }


}
