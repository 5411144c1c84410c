/**
 * Namespace stripping (tcx-interpolate.py, lines 73-78).
 *
 * lxml writes the tag of a namespaced element in Clark notation,
 * `{namespace-uri}LocalName`. Before matching on `Trackpoint`, `Time` and
 * `DistanceMeters`, the script walks every node of the parsed tree in
 * document order and cuts each string tag to what follows its first `}`.
 */
module Namespaces {
  import opened Wrappers

  /** The tag of a node of the tree. Elements carry a string; comments,
      processing instructions and entities carry a non-string tag in lxml,
      which the stripping pass skips. */
  datatype Tag = Name(name: string) | Comment | ProcessingInstruction | Entity

  /** A node of the tree as the walk sees it: its tag and everything else
      about it (text, attributes, children), which the pass does not touch. */
  datatype Node<C> = Node(tag: Tag, content: C)

  /** Python's `str.find` for a single character: the index of its first
      occurrence, or -1 when it does not occur. */
  function Find(s: string, c: char): (i: int)
    ensures -1 <= i < |s|
    ensures i == -1 <==> c !in s
    ensures 0 <= i ==> s[i] == c && c !in s[..i]
    decreases |s|
  {
    if |s| == 0 then -1
    else if s[0] == c then 0
    else
      var j := Find(s[1..], c);
      assert s == [s[0]] + s[1..];
      if j == -1 then -1
      else
        assert s[..j + 1] == [s[0]] + s[1..][..j];
        j + 1
  }

  /** The local part of one tag: everything after the first `}`, or the
      whole tag when it contains none. The result is a suffix of the tag. */
  function StripTag(tag: string): (local: string)
    ensures |local| <= |tag| && local == tag[|tag| - |local|..]
    ensures '}' !in tag ==> local == tag
    ensures '}' in tag ==>
      |local| < |tag| && tag[|tag| - |local| - 1] == '}' && '}' !in tag[..|tag| - |local| - 1]
  {
    var i := Find(tag, '}');
    if i > -1 then tag[i + 1..] else tag
  }

  /** A Clark-notation tag `{ns}local`, for a namespace without `}`, strips
      to exactly its local name: what the comment at line 73 intends. */
  lemma ClarkLocalName(ns: string, local: string)
    requires '}' !in ns
    ensures StripTag("{" + ns + "}" + local) == local
  {
    var t := "{" + ns + "}" + local;
    var p := |ns| + 1;
    assert t[p] == '}';
    assert t[..p] == "{" + ns;
    assert t[p + 1..] == local;
  }

  /** The effect of the pass on one tag: string tags are stripped, others
      are left as they are. */
  function StripNode(t: Tag): (r: Tag)
    ensures r.Name? <==> t.Name?
    ensures t.Name? ==> r.name == StripTag(t.name)
    ensures !t.Name? ==> r == t
  {
    match t
    case Name(s) => Name(StripTag(s))
    case _ => t
  }

  /** The whole pass over the nodes in document order, as a value. */
  function StripAll<C>(nodes: seq<Node<C>>): (r: seq<Node<C>>)
    ensures |r| == |nodes|
  {
    if nodes == [] then []
    else [nodes[0].(tag := StripNode(nodes[0].tag))] + StripAll(nodes[1..])
  }

  /** The pass keeps the number and order of the nodes, changes nothing but
      tags, strips every string tag and skips every other one. */
  lemma {:induction false} StripAllAt<C>(nodes: seq<Node<C>>, k: nat)
    requires k < |nodes|
    ensures |StripAll(nodes)| == |nodes|
    ensures StripAll(nodes)[k].content == nodes[k].content
    ensures nodes[k].tag.Name? ==> StripAll(nodes)[k].tag == Name(StripTag(nodes[k].tag.name))
    ensures !nodes[k].tag.Name? ==> StripAll(nodes)[k] == nodes[k]
  {
    if k > 0 {
      StripAllAt(nodes[1..], k - 1);
    }
  }

  /** The tag `{ns}local` for a bare tag `local`; non-string tags have no
      namespace. */
  function Qualify(ns: string, t: Tag): (r: Tag)
    ensures r.Name? <==> t.Name?
  {
    match t
    case Name(s) => Name("{" + ns + "}" + s)
    case _ => t
  }

  /** Node `n` as a producer writes it: qualified with namespace `ns`, or
      left bare when `ns` is None. */
  function Decorate<C>(ns: Option<string>, n: Node<C>): (r: Node<C>)
    ensures r.content == n.content && (r.tag.Name? <==> n.tag.Name?)
    ensures ns.None? ==> r == n
  {
    match ns
    case None => n
    case Some(u) => n.(tag := Qualify(u, n.tag))
  }

  /** Namespace tolerance: a document in which each element carries its own
      namespace, or none, strips to the same nodes as the undecorated
      document, provided no namespace and no local name contains `}`. */
  lemma {:induction false} QualifiedStripsToBare<C>(nss: seq<Option<string>>, nodes: seq<Node<C>>)
    requires |nss| == |nodes|
    requires forall k :: 0 <= k < |nss| && nss[k].Some? ==> '}' !in nss[k].value
    requires forall k :: 0 <= k < |nodes| && nodes[k].tag.Name? ==> '}' !in nodes[k].tag.name
    ensures StripAll(seq(|nodes|, k requires 0 <= k < |nodes| => Decorate(nss[k], nodes[k])))
         == StripAll(nodes)
         == nodes
  {
    var qualified := seq(|nodes|, k requires 0 <= k < |nodes| => Decorate(nss[k], nodes[k]));
    forall k | 0 <= k < |nodes|
      ensures StripAll(qualified)[k] == nodes[k] && StripAll(nodes)[k] == nodes[k]
    {
      StripAllAt(qualified, k);
      StripAllAt(nodes, k);
      if nodes[k].tag.Name? && nss[k].Some? {
        ClarkLocalName(nss[k].value, nodes[k].tag.name);
      }
    }
  }

  /** The loop at lines 74-78: every node's tag is rewritten in place. */
  method StripNamespaces<C>(nodes: array<Node<C>>)
    modifies nodes
    ensures nodes[..] == StripAll(old(nodes[..]))
  {
    ghost var original := nodes[..];
    ghost var stripped := StripAll(original);
    var k := 0;
    while k < nodes.Length
      invariant 0 <= k <= nodes.Length
      invariant forall j :: 0 <= j < k ==> nodes[j] == stripped[j]
      invariant forall j :: k <= j < nodes.Length ==> nodes[j] == original[j]
    {
      StripAllAt(original, k);
      var e := nodes[k];
      if !e.tag.Name? {
        k := k + 1;
        continue;
      }
      var i := Find(e.tag.name, '}');
      if i > -1 {
        nodes[k] := e.(tag := Name(e.tag.name[i + 1..]));
      }
      assert nodes[k] == stripped[k];
      k := k + 1;
    }
    assert nodes[..] == stripped;
  }
}
