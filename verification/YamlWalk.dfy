/**
 substituteScalars and walkScalars over a YAML node tree, rewriting scalar values
 in place (internal/cellblueprint/params.go:47-94).
 */
module YamlWalk {
  import opened Substitution

  datatype Kind = Document | Mapping | Sequence | Scalar | Alias

  class Node {
    const kind: Kind
    /** Children; a mapping holds keys at even and values at odd positions. */
    const content: seq<Node>
    var value: string
    var tag: string
    /** This node and everything below it. */
    ghost const repr: set<Node>

    constructor (kind: Kind, content: seq<Node>, value: string, tag: string)
      requires forall i | 0 <= i < |content| :: content[i].IsTree()
      requires forall i, j | 0 <= i < j < |content| :: content[i].repr !! content[j].repr
      ensures IsTree() && this.kind == kind && this.content == content && this.value == value && this.tag == tag
    {
      this.kind := kind;
      this.content := content;
      this.value := value;
      this.tag := tag;
      this.repr := {this} + (set i, m | 0 <= i < |content| && m in content[i].repr :: m);
    }

    /** No node is shared: aliases are nodes of their own and are not followed. */
    ghost predicate IsTree()
      decreases repr
    {
      && this in repr
      && (forall i | 0 <= i < |content| :: content[i].repr < repr && this !in content[i].repr && content[i].IsTree())
      && (forall i, j | 0 <= i < j < |content| :: content[i].repr !! content[j].repr)
    }

    /** Does walkScalars go on to child i? */
    predicate Follows(i: nat) {
      match kind
      case Document | Sequence => true
      case Mapping => i % 2 == 1
      case Scalar | Alias => false
    }

    /** The nodes walkScalars hands to its callback. */
    ghost function Targets(): (r: set<Node>)
      requires IsTree()
      ensures r <= repr
      decreases repr, 1
    {
      if kind == Scalar then {this} else Reached(|content|)
    }

    /** The targets in the first n children. */
    ghost function Reached(n: nat): (r: set<Node>)
      requires IsTree() && n <= |content|
      ensures r <= repr
      decreases repr, 0, n
    {
      if n == 0 then {}
      else if Follows(n - 1) then Reached(n - 1) + content[n - 1].Targets()
      else Reached(n - 1)
    }

    /** Children do not share nodes, so a later child is untouched by the targets of earlier ones. */
    lemma {:induction false} ReachedElsewhere(n: nat, i: nat)
      requires IsTree() && n <= i < |content|
      ensures Reached(n) !! content[i].repr
    {
      if n > 0 {
        ReachedElsewhere(n - 1, i);
      }
    }

    lemma {:induction false} ReachedExactly(n: nat, m: Node)
      requires IsTree() && n <= |content|
      ensures m in Reached(n) <==> exists i | 0 <= i < n :: Follows(i) && m in content[i].Targets()
    {
      if n > 0 {
        ReachedExactly(n - 1, m);
      }
    }

    /** A scalar is handed over and an alias is not; below a document or sequence all children are walked, and of a
        mapping's pairs the values, while nothing in a key is ever reached. */
    lemma TargetsMean(m: Node)
      requires IsTree()
      ensures kind == Scalar ==> (m in Targets() <==> m == this)
      ensures kind == Alias ==> m !in Targets()
      ensures kind in {Document, Sequence} ==>
        (m in Targets() <==> exists i | 0 <= i < |content| :: m in content[i].Targets())
      ensures kind == Mapping ==>
        (m in Targets() <==> exists i | 0 <= i < |content| :: i % 2 == 1 && m in content[i].Targets())
      ensures kind == Mapping ==>
        forall i | 0 <= i < |content| && i % 2 == 0 :: m in content[i].repr ==> m !in Targets()
    {
      ReachedExactly(|content|, m);
    }

    /** walkScalars with a callback that rewrites a value and its tag: every target once, nothing else. */
    method WalkScalars(f: string -> string, g: (string, string) -> string)
      requires IsTree()
      modifies repr`value, repr`tag
      ensures forall m <- repr :: Rewritten(m, m in Targets(), f, g)
      decreases repr, 1
    {
      if kind == Scalar {
        value, tag := f(value), g(value, tag);
      } else {
        WalkContent(f, g);
      }
    }

    /** What the targets of the first n children look like, given all values and tags before. */
    ghost predicate DoneUpTo(n: nat, f: string -> string, g: (string, string) -> string,
                             was: map<Node, (string, string)>)
      requires IsTree() && n <= |content|
      reads repr
    {
      forall m <- repr :: m in was && (m.value, m.tag) == Callback(m in Reached(n), f, g, was[m])
    }

    /** The recursion into the children that are followed. */
    method WalkContent(f: string -> string, g: (string, string) -> string)
      requires IsTree()
      modifies repr`value, repr`tag
      ensures forall m <- repr :: Rewritten(m, m in Reached(|content|), f, g)
      decreases repr, 0, 1
    {
      ghost var was := map m | m in repr :: (m.value, m.tag);
      for i := 0 to |content|
        invariant DoneUpTo(i, f, g, was)
      {
        WalkChild(i, f, g, was);
      }
    }

    method WalkChild(i: nat, f: string -> string, g: (string, string) -> string, ghost was: map<Node, (string, string)>)
      requires IsTree() && i < |content| && DoneUpTo(i, f, g, was)
      modifies repr`value, repr`tag
      ensures DoneUpTo(i + 1, f, g, was)
      decreases repr, 0, 0
    {
      ReachedElsewhere(i, i);
      if Follows(i) {
        content[i].WalkScalars(f, g);
      }
    }

    /** substituteScalars: references are replaced in exactly the targets, and a rewritten one loses its tag. */
    method Substitute(values: map<string, string>)
      requires IsTree()
      modifies repr`value, repr`tag
      ensures forall m <- repr :: m.value == if m in Targets() then Substituted(old(m.value), values) else old(m.value)
      ensures forall m <- repr :: m.tag == if m in Targets() && HasOpener(old(m.value)) then "" else old(m.tag)
    {
      WalkScalars(v => if HasOpener(v) then Rewrite(v, values) else v, (v, t) => if HasOpener(v) then "" else t);
    }
  }

  function Callback(hit: bool, f: string -> string, g: (string, string) -> string, was: (string, string))
    : (string, string)
  {
    if hit then (f(was.0), g(was.0, was.1)) else was
  }

  /** A node's value and tag now, given whether it was handed to the callback. */
  twostate predicate Rewritten(m: Node, hit: bool, f: string -> string, g: (string, string) -> string)
    reads m
  {
    && m.value == (if hit then f(old(m.value)) else old(m.value))
    && m.tag == (if hit then g(old(m.value), old(m.tag)) else old(m.tag))
  }
}
