/**
 The content script's state and its tree walk. `processNode` rewrites the
 value of each text node it reaches in place and descends into the children
 of element nodes, except below SCRIPT, STYLE, TEXTAREA, INPUT and NOSCRIPT;
 other node types are ignored. `init` runs the first pass once.
 */
module Content {
  import opened Wrappers
  import opened Funding
  import opened RegexEscape
  import opened Aliases
  import opened Matcher
  import opened Annotator

  /** `nodeType` 3, `nodeType` 1 with its `tagName`, or any other node type. */
  datatype NodeKind = TextNode | ElementNode(tagName: string) | OtherNode

  /** A document node. Its kind and children are fixed: the walk only ever
      assigns `nodeValue`. `writes` counts those assignments. */
  class DomNode {
    const kind: NodeKind
    const childNodes: seq<DomNode>
    var nodeValue: string
    ghost var writes: nat

    /** The node and all its descendants. */
    ghost const repr: set<DomNode>
    ghost const height: nat

    /** A tree: the node lies in its subtree, each child's subtree lies in it
        without the node, the children's subtrees are disjoint and are trees
        themselves, and a text node has no children. */
    ghost predicate Valid()
      decreases height
    {
      && this in repr
      && (kind.TextNode? ==> childNodes == [])
      && (forall i :: 0 <= i < |childNodes| ==> childNodes[i].repr <= repr && this !in childNodes[i].repr)
      && (forall i, j :: 0 <= i < j < |childNodes| ==> childNodes[i].repr !! childNodes[j].repr)
      && (forall i :: 0 <= i < |childNodes| ==> childNodes[i].height < height && childNodes[i].Valid())
    }

    /** The subtree holds nothing but the node and its descendants. */
    ghost predicate Spans()
      requires Valid()
      decreases height
    {
      && repr == {this} + Below(this, |childNodes|)
      && (forall i :: 0 <= i < |childNodes| ==> childNodes[i].Spans())
    }
  }

  /** The subtrees of the first `k` children of `n`. */
  ghost function Below(n: DomNode, k: nat): set<DomNode>
    requires k <= |n.childNodes|
  {
    if k == 0 then {} else Below(n, k - 1) + n.childNodes[k - 1].repr
  }

  /** The subtrees of the first `k` children do not meet those of the later ones. */
  lemma {:induction false} BelowDisjoint(n: DomNode, k: nat, j: nat)
    requires n.Valid() && k <= j < |n.childNodes|
    ensures Below(n, k) !! n.childNodes[j].repr
  {
    if k > 0 {
      BelowDisjoint(n, k - 1, j);
      assert n.childNodes[k - 1].repr !! n.childNodes[j].repr;
    }
  }

  /** Every node below the first `k` children lies in one of their subtrees. */
  lemma {:induction false} BelowMember(n: DomNode, k: nat, o: DomNode)
    requires k <= |n.childNodes| && o in Below(n, k)
    ensures exists i :: 0 <= i < k && o in n.childNodes[i].repr
  {
    if o !in n.childNodes[k - 1].repr {
      BelowMember(n, k - 1, o);
    }
  }

  /** The tags whose subtrees are never entered. */
  predicate IsExcludedTag(tag: string) {
    tag == "SCRIPT" || tag == "STYLE" || tag == "TEXTAREA" || tag == "INPUT" || tag == "NOSCRIPT"
  }

  /** The text nodes the walk from `n` reaches: all inside the subtree. */
  ghost function Reached(n: DomNode): (r: set<DomNode>)
    requires n.Valid()
    ensures r <= n.repr
    ensures forall o :: o in r ==> o.kind.TextNode?
    decreases n.height, 1
  {
    match n.kind
    case TextNode => {n}
    case ElementNode(tag) => if IsExcludedTag(tag) then {} else ReachedChildren(n, |n.childNodes|)
    case OtherNode => {}
  }

  /** The text nodes reached through the first `k` children of `n`. */
  ghost function ReachedChildren(n: DomNode, k: nat): (r: set<DomNode>)
    requires n.Valid() && k <= |n.childNodes|
    ensures r <= Below(n, k) && r <= n.repr
    ensures forall o :: o in r ==> o.kind.TextNode?
    decreases n.height, 0, k
  {
    if k == 0 then {} else ReachedChildren(n, k - 1) + Reached(n.childNodes[k - 1])
  }

  /** A node inside a subtree is valid and its own subtree lies inside. */
  lemma {:induction false} SubtreeInside(n: DomNode, e: DomNode)
    requires n.Valid() && n.Spans() && e in n.repr
    ensures e.Valid() && e.Spans() && e.repr <= n.repr
    decreases n.height
  {
    if e != n {
      BelowMember(n, |n.childNodes|, e);
      var i :| 0 <= i < |n.childNodes| && e in n.childNodes[i].repr;
      SubtreeInside(n.childNodes[i], e);
    }
  }

  /** A node below child `i` is reached through the first `k` children
      exactly when the walk from child `i` reaches it. */
  lemma {:induction false} ReachedThroughChild(n: DomNode, k: nat, i: nat, o: DomNode)
    requires n.Valid() && i < k <= |n.childNodes|
    requires o in n.childNodes[i].repr
    ensures o in ReachedChildren(n, k) <==> o in Reached(n.childNodes[i])
    decreases k
  {
    var last := n.childNodes[k - 1];
    assert last.Valid();
    var lastReached := Reached(last);
    assert ReachedChildren(n, k) == ReachedChildren(n, k - 1) + lastReached;
    if k - 1 != i {
      assert n.childNodes[i].repr !! last.repr;
      assert o !in lastReached;
      ReachedThroughChild(n, k - 1, i, o);
    } else {
      BelowDisjoint(n, i, i);
    }
  }

  /** No text node below an excluded element is reached: the whole subtree
      of a SCRIPT, STYLE, TEXTAREA, INPUT or NOSCRIPT element keeps its values. */
  lemma {:induction false} ExcludedUntouched(n: DomNode, e: DomNode)
    requires n.Valid() && n.Spans() && e in n.repr
    requires e.kind.ElementNode? && IsExcludedTag(e.kind.tagName)
    ensures Reached(n) !! e.repr
    decreases n.height
  {
    if e != n && n.kind.ElementNode? && !IsExcludedTag(n.kind.tagName) {
      BelowMember(n, |n.childNodes|, e);
      var i :| 0 <= i < |n.childNodes| && e in n.childNodes[i].repr;
      var c := n.childNodes[i];
      ExcludedUntouched(c, e);
      SubtreeInside(c, e);
      forall o | o in e.repr ensures o !in Reached(n) {
        ReachedThroughChild(n, |n.childNodes|, i, o);
      }
    }
  }

  /** How the reached set grows from child `i` to child `i + 1`. */
  lemma ChildStep(node: DomNode, i: nat)
    requires node.Valid() && i < |node.childNodes|
    ensures forall n :: n !in node.childNodes[i].repr ==>
      (n in ReachedChildren(node, i + 1) <==> n in ReachedChildren(node, i))
    ensures forall n :: n in node.childNodes[i].repr ==>
      n !in ReachedChildren(node, i) && (n in ReachedChildren(node, i + 1) <==> n in Reached(node.childNodes[i]))
  {
    BelowDisjoint(node, i, i);
  }

  /** The module-level state of the content script. */
  class ContentScript {
    const table: Table
    /** `allKeys` after the sort. */
    const aliases: seq<string>
    /** The source text of `pattern`. */
    const patternSource: string
    /** The arms the compiled `pattern` tries. */
    const arms: seq<string>
    var currentStyle: string
    var initialized: bool

    /** Loading the script: the alias list is built, sorted and compiled,
        the style is `concise` and nothing has run yet. */
    constructor (data: Table)
      ensures table == data
      ensures aliases == SortedAliases(data)
      ensures patternSource == PatternSource(aliases)
      ensures arms == (if aliases == [] then [""] else aliases)
      ensures currentStyle == "concise" && !initialized
    {
      table := data;
      var allKeys := BuildAliases(Keys(data));
      var sorted := new string[|allKeys|](i requires 0 <= i < |allKeys| => allKeys[i]);
      assert sorted[..] == allKeys;
      SortInPlace(sorted);
      aliases := sorted[..];
      patternSource := PatternSource(sorted[..]);
      arms := CompiledArms(sorted[..]);
      CompiledArmsAreAliases(sorted[..]);
      currentStyle := "concise";
      initialized := false;
    }

    /** The value a text node gets from the walk. */
    ghost function NewText(text: string): string
      reads this
    {
      Annotate(arms, table, currentStyle, text)
    }

    /** The state of node `n` after the walk, given its value and write count
        before it and whether the walk reached it. */
    ghost predicate Rewritten(n: DomNode, before: string, writesBefore: nat, reached: bool)
      reads this, n
    {
      if reached then
        n.nodeValue == NewText(before) &&
        n.writes == writesBefore + (if NewText(before) != before then 1 else 0)
      else n.nodeValue == before && n.writes == writesBefore
    }

    /** `processNode`: each reached text node gets the annotated text, and is
        written only when that differs from its old value; every other node
        of the subtree keeps its value. */
    method ProcessNode(node: DomNode)
      requires node.Valid()
      modifies node.repr
      ensures forall n :: n in node.repr ==> Rewritten(n, old(n.nodeValue), old(n.writes), n in Reached(node))
      decreases node.height
    {
      match node.kind
      case TextNode =>
        var text := node.nodeValue;
        if Matches(arms, text, 0) != [] {
          var newText := Annotate(arms, table, currentStyle, text);
          if newText != text {
            node.nodeValue := newText;
            node.writes := node.writes + 1;
          }
        } else {
          AnnotateUnresolved(arms, table, currentStyle, text);
        }
      case ElementNode(tag) =>
        if !IsExcludedTag(tag) {
          for i := 0 to |node.childNodes|
            invariant forall n :: n in node.repr ==>
              Rewritten(n, old(n.nodeValue), old(n.writes), n in ReachedChildren(node, i))
          {
            ChildStep(node, i);
            ProcessNode(node.childNodes[i]);
          }
        }
      case OtherNode =>
    }

    /** `init`: the first call marks the script initialised and walks the
        body; any later call does nothing. */
    method Init(body: DomNode)
      requires body.Valid()
      modifies this`initialized, body.repr
      ensures initialized
      ensures forall n :: n in body.repr ==>
        Rewritten(n, old(n.nodeValue), old(n.writes), !old(initialized) && n in Reached(body))
    {
      if initialized {
        return;
      }
      initialized := true;
      ProcessNode(body);
    }

    /** The callback of the stored-preference read: a non-empty stored style
        replaces the current one, then `init` runs. */
    method OnStyleLoaded(displayStyle: Option<string>, body: DomNode)
      requires body.Valid()
      modifies this`currentStyle, this`initialized, body.repr
      ensures currentStyle == if displayStyle.Some? && displayStyle.value != "" then displayStyle.value
                              else old(currentStyle)
      ensures initialized
      ensures forall n :: n in body.repr ==>
        Rewritten(n, old(n.nodeValue), old(n.writes), !old(initialized) && n in Reached(body))
    {
      if displayStyle.Some? && displayStyle.value != "" {
        currentStyle := displayStyle.value;
      }
      Init(body);
    }

    /** The mutation observer's callback: `processNode` on each added node,
        in order. */
    method OnAddedNodes(added: seq<DomNode>)
      requires initialized
      requires forall i :: 0 <= i < |added| ==> added[i].Valid()
      requires forall i, j :: 0 <= i < j < |added| ==> added[i].repr !! added[j].repr
      modifies set i, o | 0 <= i < |added| && o in added[i].repr :: o
      ensures forall i, n :: 0 <= i < |added| && n in added[i].repr ==>
        Rewritten(n, old(n.nodeValue), old(n.writes), n in Reached(added[i]))
    {
      for k := 0 to |added|
        invariant forall i, n :: 0 <= i < |added| && n in added[i].repr ==>
          Rewritten(n, old(n.nodeValue), old(n.writes), i < k && n in Reached(added[i]))
      {
        assert forall i :: 0 <= i < |added| && i != k ==> added[i].repr !! added[k].repr;
        ProcessNode(added[k]);
      }
    }
  }
}
