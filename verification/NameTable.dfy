/**
 The name table of the in-memory file system: buckets of nodes chained through `name_next`, used as a
 map from (parent id, name) to node.
 */
module NameTable {

  datatype Key = Key(parentId: nat, name: string)

  /** `x | 0` and `x >>> 0` */
  function ToUint32(x: int): nat { x % 0x1_0000_0000 }

  function ToInt32(x: int): int {
    if ToUint32(x) < 0x8000_0000 then ToUint32(x) else ToUint32(x) - 0x1_0000_0000
  }

  /** The 32-bit string hash after all of `name`. */
  function NameHash(name: string): int {
    if name == "" then 0
    else
      var hash := NameHash(name[..|name| - 1]);
      ToInt32(ToInt32(hash * 32) - hash + name[|name| - 1] as int)
  }

  /** The characters as the digits of a number to the base 31. */
  function Base31(name: string): nat {
    if name == "" then 0 else 31 * Base31(name[..|name| - 1]) + name[|name| - 1] as int
  }

  /** Whatever overflowed on the way, the hash is that number in 32 bits, as a signed one. */
  lemma {:induction false} HashIsBase31(name: string)
    ensures -0x8000_0000 <= NameHash(name) < 0x8000_0000
    ensures (NameHash(name) - Base31(name)) % 0x1_0000_0000 == 0
  {
    hide ToInt32;
    if name != "" {
      var before, c := name[..|name| - 1], name[|name| - 1] as int;
      HashIsBase31(before);
      var hash := NameHash(before);
      Truncates(hash * 32);
      Truncates(ToInt32(hash * 32) - hash + c);
      Congruent(hash, Base31(before), ToInt32(hash * 32), c, ToInt32(ToInt32(hash * 32) - hash + c));
    }
  }

  lemma Truncates(x: int)
    ensures -0x8000_0000 <= ToInt32(x) < 0x8000_0000 && (ToInt32(x) - x) % 0x1_0000_0000 == 0
  {}

  lemma Congruent(hash: int, number: int, shifted: int, c: int, next: int)
    requires (hash - number) % 0x1_0000_0000 == 0
    requires (shifted - hash * 32) % 0x1_0000_0000 == 0 && (next - (shifted - hash + c)) % 0x1_0000_0000 == 0
    ensures (next - (31 * number + c)) % 0x1_0000_0000 == 0
  {
    var a, b, d := (hash - number) / 0x1_0000_0000, (shifted - hash * 32) / 0x1_0000_0000, (next - (shifted - hash + c)) / 0x1_0000_0000;
    assert next - (31 * number + c) == 0x1_0000_0000 * (31 * a + b + d);
  }

  function HashName(key: Key, buckets: nat): (bucket: nat)
    requires buckets > 0
    ensures bucket < buckets
  {
    ToUint32(key.parentId + NameHash(key.name)) % buckets
  }

  class Node {
    const id: nat
    var name: string
    var parent: Node?
    var nameNext: Node?

    /** A node without a parent is its own, like the root. */
    constructor (id: nat, parent: Node?, name: string)
      ensures this.id == id && this.name == name && nameNext == null
      ensures this.parent == if parent == null then this else parent
    {
      this.id, this.name, this.nameNext := id, name, null;
      this.parent := parent;
      new;
      if parent == null { this.parent := this; }
    }

    ghost predicate Named(key: Key)
      reads this
    {
      parent != null && parent.id == key.parentId && name == key.name
    }
  }

  // ---------------------------------------------------------------------------------------------
  // What the table stands for
  // ---------------------------------------------------------------------------------------------

  /** Every node of a chain is filed under a key of that bucket, and every filed node is in its chain. */
  ghost predicate Filed<N>(chains: seq<seq<N>>, keyOf: map<N, Key>) {
    && |chains| > 0
    && (forall b, i :: 0 <= b < |chains| && 0 <= i < |chains[b]| ==>
          chains[b][i] in keyOf && HashName(keyOf[chains[b][i]], |chains|) == b)
    && (forall n :: n in keyOf ==> n in chains[HashName(keyOf[n], |chains|)])
  }

  /** Nodes and keys correspond one to one. */
  ghost predicate Paired<N>(keyOf: map<N, Key>, contents: map<Key, N>) {
    && (forall n :: n in keyOf ==> keyOf[n] in contents && contents[keyOf[n]] == n)
    && (forall key :: key in contents ==> contents[key] in keyOf && keyOf[contents[key]] == key)
  }

  ghost predicate Distinct<N>(chain: seq<N>) {
    forall i, j :: 0 <= i < j < |chain| ==> chain[i] != chain[j]
  }

  lemma FiledAdd<N>(chains: seq<seq<N>>, keyOf: map<N, Key>, node: N, key: Key)
    requires Filed(chains, keyOf) && node !in keyOf
    ensures var b := HashName(key, |chains|);
      Filed(chains[b := [node] + chains[b]], keyOf[node := key])
  {
    hide HashName;
    var b := HashName(key, |chains|);
    var after := chains[b := [node] + chains[b]];
    forall n | n in keyOf ensures n in after[HashName(keyOf[n], |chains|)] {
      assert n in chains[HashName(keyOf[n], |chains|)];
    }
    forall c, i | 0 <= c < |after| && 0 <= i < |after[c]|
      ensures after[c][i] in keyOf[node := key] && HashName(keyOf[node := key][after[c][i]], |after|) == c
    {
      if c != b { assert after[c][i] == chains[c][i]; }
      else if i > 0 { assert after[b][i] == chains[b][i - 1]; }
    }
  }

  lemma PairedAdd<N>(keyOf: map<N, Key>, contents: map<Key, N>, node: N, key: Key)
    requires Paired(keyOf, contents) && node !in keyOf && key !in contents
    ensures Paired(keyOf[node := key], contents[key := node])
  {
  }

  lemma FiledRemove<N>(chains: seq<seq<N>>, keyOf: map<N, Key>, b: nat, at: nat)
    requires Filed(chains, keyOf) && b < |chains| && at < |chains[b]| && Distinct(chains[b])
    ensures Filed(chains[b := chains[b][..at] + chains[b][at + 1..]], keyOf - {chains[b][at]})
  {
    hide HashName;
    var node := chains[b][at];
    var rest := chains[b][..at] + chains[b][at + 1..];
    var after := chains[b := rest];
    forall n | n in keyOf && n != node ensures n in after[HashName(keyOf[n], |chains|)] {
      var c := HashName(keyOf[n], |chains|);
      assert n in chains[c];
      if c == b {
        var i :| 0 <= i < |chains[b]| && chains[b][i] == n;
        assert n == rest[if i < at then i else i - 1];
      }
    }
    forall c, i | 0 <= c < |after| && 0 <= i < |after[c]|
      ensures after[c][i] in keyOf - {node} && HashName(keyOf[after[c][i]], |after|) == c
    {
      if c != b { assert after[c][i] == chains[c][i]; }
      else { assert after[b][i] == chains[b][if i < at then i else i + 1]; }
    }
  }

  lemma PairedRemove<N>(keyOf: map<N, Key>, contents: map<Key, N>, node: N)
    requires Paired(keyOf, contents) && node in keyOf
    ensures Paired(keyOf - {node}, contents - {keyOf[node]})
  {
  }

  lemma FreshNode<N>(chains: seq<seq<N>>, keyOf: map<N, Key>, n: N)
    requires Filed(chains, keyOf) && n !in keyOf
    ensures forall b :: 0 <= b < |chains| ==> n !in chains[b]
  {
    hide HashName;
  }

  /** A node lies in the chain of its own bucket and in no other. */
  lemma OneBucket<N>(chains: seq<seq<N>>, keyOf: map<N, Key>, n: N, b: nat)
    requires Filed(chains, keyOf) && b < |chains| && n in chains[b]
    ensures n in keyOf && HashName(keyOf[n], |chains|) == b
  {
    hide HashName;
    var i :| 0 <= i < |chains[b]| && chains[b][i] == n;
  }

  // ---------------------------------------------------------------------------------------------
  // Links
  // ---------------------------------------------------------------------------------------------

  function After(chain: seq<Node>, i: nat): Node? { if i + 1 < |chain| then chain[i + 1] else null }

  ghost predicate LinkedAt(links: map<Node, Node?>, chain: seq<Node>, i: nat) {
    i < |chain| ==> chain[i] in links && links[chain[i]] == After(chain, i)
  }

  /** Under these links `head` starts a chain of distinct nodes, in order and ended by null: no cycle. */
  ghost predicate Linked(links: map<Node, Node?>, head: Node?, chain: seq<Node>) {
    && head == (if chain == [] then null else chain[0])
    && (forall i: nat :: LinkedAt(links, chain, i))
    && Distinct(chain)
  }

  ghost predicate AllLinked(links: map<Node, Node?>, heads: seq<Node?>, chains: seq<seq<Node>>) {
    |heads| == |chains| && forall b :: 0 <= b < |chains| ==> Linked(links, heads[b], chains[b])
  }

  lemma LinkedStays(links: map<Node, Node?>, after: map<Node, Node?>, head: Node?, chain: seq<Node>)
    requires Linked(links, head, chain)
    requires forall n :: n in chain && n in links ==> n in after && after[n] == links[n]
    ensures Linked(after, head, chain)
  {
    forall i: nat | i < |chain| ensures LinkedAt(after, chain, i) {
      assert LinkedAt(links, chain, i);
    }
  }

  lemma LinkedAdd(links: map<Node, Node?>, heads: seq<Node?>, chains: seq<seq<Node>>, node: Node, b: nat)
    requires AllLinked(links, heads, chains) && b < |chains|
    requires forall c :: 0 <= c < |chains| ==> node !in chains[c]
    ensures AllLinked(links[node := heads[b]], heads[b := node], chains[b := [node] + chains[b]])
  {
    var after := links[node := heads[b]];
    forall c | 0 <= c < |chains| ensures Linked(after, heads[c], chains[c]) {
      LinkedStays(links, after, heads[c], chains[c]);
    }
    LinkedPrepend(after, node, heads[b], chains[b]);
  }

  lemma LinkedPrepend(links: map<Node, Node?>, node: Node, head: Node?, chain: seq<Node>)
    requires Linked(links, head, chain) && node !in chain && node in links && links[node] == head
    ensures Linked(links, node, [node] + chain)
  {
    var longer := [node] + chain;
    forall i: nat | i < |longer| ensures LinkedAt(links, longer, i) {
      if i > 0 { assert LinkedAt(links, chain, i - 1); }
    }
  }

  /** Links after the node at position `at` of chain `b` is taken out. */
  ghost function Unlinked(links: map<Node, Node?>, chain: seq<Node>, at: nat): map<Node, Node?>
    requires at < |chain|
  {
    if at == 0 then links else links[chain[at - 1] := After(chain, at)]
  }

  lemma LinkedRemove(links: map<Node, Node?>, heads: seq<Node?>, chains: seq<seq<Node>>, b: nat, at: nat)
    requires AllLinked(links, heads, chains) && b < |chains| && at < |chains[b]|
    requires forall c, n :: 0 <= c < |chains| && c != b && n in chains[c] ==> n !in chains[b]
    ensures var chain := chains[b];
      AllLinked(Unlinked(links, chain, at) - {chain[at]},
                if at == 0 then heads[b := After(chain, 0)] else heads,
                chains[b := chain[..at] + chain[at + 1..]])
  {
    var chain := chains[b];
    var after := Unlinked(links, chain, at) - {chain[at]};
    assert chain[at] in chains[b] && (at > 0 ==> chain[at - 1] in chains[b]);
    forall c | 0 <= c < |chains| && c != b ensures Linked(after, heads[c], chains[c]) {
      LinkedStays(links, after, heads[c], chains[c]);
    }
    LinkedWithout(links, heads[b], chain, at);
  }

  lemma LinkedWithout(links: map<Node, Node?>, head: Node?, chain: seq<Node>, at: nat)
    requires Linked(links, head, chain) && at < |chain|
    ensures Linked(Unlinked(links, chain, at) - {chain[at]}, if at == 0 then After(chain, 0) else head, chain[..at] + chain[at + 1..])
  {
    var rest := chain[..at] + chain[at + 1..];
    var after := Unlinked(links, chain, at) - {chain[at]};
    forall i: nat | i < |rest| ensures LinkedAt(after, rest, i) {
      var k := if i < at then i else i + 1;
      assert rest[i] == chain[k] && LinkedAt(links, chain, k);
    }
  }

  lemma HomeChain(links: map<Node, Node?>, heads: seq<Node?>, chains: seq<seq<Node>>, keyOf: map<Node, Key>, b: nat, node: Node)
    requires Filed(chains, keyOf) && AllLinked(links, heads, chains) && b < |chains|
    ensures |heads| == |chains| && Linked(links, heads[b], chains[b])
    ensures node in keyOf && HashName(keyOf[node], |chains|) == b ==> node in chains[b]
    ensures node in chains[b] ==> node in keyOf
  {
    hide HashName;
  }

  /** A removal, in every part of what the table stands for. */
  lemma Removal(links: map<Node, Node?>, heads: seq<Node?>, chains: seq<seq<Node>>, keyOf: map<Node, Key>,
                contents: map<Key, Node>, b: nat, at: nat)
    requires Filed(chains, keyOf) && Paired(keyOf, contents) && AllLinked(links, heads, chains)
    requires b < |chains| && at < |chains[b]|
    ensures var node, rest := chains[b][at], chains[b][..at] + chains[b][at + 1..];
      && node in keyOf
      && Filed(chains[b := rest], keyOf - {node}) && Paired(keyOf - {node}, contents - {keyOf[node]})
      && AllLinked(Unlinked(links, chains[b], at) - {node}, if at == 0 then heads[b := After(chains[b], 0)] else heads, chains[b := rest])
  {
    hide HashName;
    assert Linked(links, heads[b], chains[b]);
    forall c, n | 0 <= c < |chains| && c != b && n in chains[c] ensures n !in chains[b] {
      OneBucket(chains, keyOf, n, c);
      if n in chains[b] { OneBucket(chains, keyOf, n, b); }
    }
    LinkedRemove(links, heads, chains, b, at);
    FiledRemove(chains, keyOf, b, at);
    PairedRemove(keyOf, contents, chains[b][at]);
  }

  // ---------------------------------------------------------------------------------------------
  // The table
  // ---------------------------------------------------------------------------------------------

  ghost function LinksOf(nodes: set<Node>): map<Node, Node?>
    reads nodes
  {
    map n | n in nodes :: n.nameNext
  }

  /**
   `chains` spells out the buckets, `keyOf` says under which key each node is filed, and `contents` is
   the plain map the table stands for.
   */
  class Table {
    const buckets: array<Node?>
    ghost var chains: seq<seq<Node>>
    ghost var keyOf: map<Node, Key>
    ghost var contents: map<Key, Node>

    ghost predicate AllNamed()
      reads this, keyOf.Keys
    {
      forall n :: n in keyOf ==> n.Named(keyOf[n])
    }

    ghost predicate Valid()
      reads this, buckets, keyOf.Keys
    {
      |chains| == buckets.Length > 0 && Filed(chains, keyOf) && Paired(keyOf, contents) && AllNamed() && AllLinked(LinksOf(keyOf.Keys), buckets[..], chains)
    }

    constructor (length: nat)
      requires length > 0
      ensures Valid() && contents == map[] && fresh(buckets)
    {
      buckets := new Node?[length](_ => null);
      chains := seq(length, _ => []);
      keyOf, contents := map[], map[];
    }

    /** The node filed under (parent id, name), or null. The chain is walked to its end at most once. */
    method LookupNode(parentId: nat, name: string) returns (found: Node?)
      requires Valid()
      ensures found == if Key(parentId, name) in contents then contents[Key(parentId, name)] else null
    {
      hide HashName;
      var key := Key(parentId, name);
      var hash := HashName(key, buckets.Length);
      ghost var chain := chains[hash];
      ghost var i := 0;
      assert Linked(LinksOf(keyOf.Keys), buckets[hash], chain);
      var node := buckets[hash];
      while node != null
        invariant 0 <= i <= |chain| && node == (if i < |chain| then chain[i] else null)
        invariant forall k :: 0 <= k < i ==> keyOf[chain[k]] != key
        decreases |chain| - i
      {
        assert chain[i] in keyOf && chain[i].Named(keyOf[chain[i]]);
        if node.parent != null && node.parent.id == parentId && node.name == name { return node; }
        assert LinkedAt(LinksOf(keyOf.Keys), chain, i);
        node := node.nameNext;
        i := i + 1;
      }
      return null;
    }

    method HashAddNode(node: Node)
      requires Valid() && node.parent != null && node !in keyOf && Key(node.parent.id, node.name) !in contents
      modifies this, buckets, node`nameNext
      ensures Valid()
      ensures keyOf == old(keyOf)[node := Key(node.parent.id, node.name)]
      ensures contents == old(contents)[Key(node.parent.id, node.name) := node]
    {
      hide HashName, Filed, Paired, AllLinked;
      ghost var key := Key(node.parent.id, node.name);
      var hash := HashName(Key(node.parent.id, node.name), buckets.Length);
      FiledAdd(chains, keyOf, node, key);
      PairedAdd(keyOf, contents, node, key);
      FreshNode(chains, keyOf, node);
      LinkedAdd(LinksOf(keyOf.Keys), buckets[..], chains, node, hash);
      ghost var links, heads := LinksOf(keyOf.Keys)[node := buckets[hash]], buckets[..][hash := node];
      node.nameNext := buckets[hash];
      buckets[hash] := node;
      chains := chains[hash := [node] + chains[hash]];
      keyOf := keyOf[node := key];
      contents := contents[key := node];
      assert LinksOf(keyOf.Keys) == links && buckets[..] == heads;
    }

    /** The bookkeeping of a removal whose links and heads are already in place. */
    ghost method Forget(b: nat, at: nat, links: map<Node, Node?>, heads: seq<Node?>)
      requires |chains| == buckets.Length > 0 && b < |chains| && at < |chains[b]|
      requires Filed(chains, keyOf) && Paired(keyOf, contents) && AllNamed() && AllLinked(links, heads, chains)
      requires LinksOf(keyOf.Keys) == Unlinked(links, chains[b], at)
      requires buckets[..] == if at == 0 then heads[b := After(chains[b], 0)] else heads
      modifies this
      ensures Valid()
      ensures keyOf == old(keyOf - {chains[b][at]})
      ensures contents == old(contents) - {old(keyOf[chains[b][at]])}
    {
      hide HashName, Filed, Paired, AllLinked, Unlinked;
      var node := chains[b][at];
      Removal(links, heads, chains, keyOf, contents, b, at);
      assert LinksOf(keyOf.Keys - {node}) == LinksOf(keyOf.Keys) - {node};
      chains := chains[b := chains[b][..at] + chains[b][at + 1..]];
      contents := contents - {keyOf[node]};
      keyOf := keyOf - {node};
      assert keyOf.Keys == old(keyOf.Keys) - {node};
    }

    /** The pointer work of a removal: `at` is where the node was found in its chain. */
    method Unlink(node: Node, hash: nat) returns (ghost found: bool, ghost at: nat)
      requires |chains| == buckets.Length && hash < |chains|
      requires Linked(LinksOf(keyOf.Keys), buckets[hash], chains[hash])
      modifies buckets, keyOf.Keys`nameNext
      ensures !found ==> node !in chains[hash] && LinksOf(keyOf.Keys) == old(LinksOf(keyOf.Keys)) && buckets[..] == old(buckets[..])
      ensures found ==> at < |chains[hash]| && chains[hash][at] == node
      ensures found ==> LinksOf(keyOf.Keys) == Unlinked(old(LinksOf(keyOf.Keys)), chains[hash], at)
      ensures found ==> buckets[..] == old(if at == 0 then buckets[..][hash := After(chains[hash], 0)] else buckets[..])
    {
      ghost var links, chain := LinksOf(keyOf.Keys), chains[hash];
      at, found := 0, false;
      if buckets[hash] == node {
        assert LinkedAt(links, chain, 0);
        buckets[hash] := node.nameNext;
        found := true;
        return;
      }
      var current := buckets[hash];
      while current != null
        invariant 0 <= at <= |chain| && current == (if at < |chain| then chain[at] else null)
        invariant forall k :: 0 <= k <= at && k < |chain| ==> chain[k] != node
        invariant LinksOf(keyOf.Keys) == links
        modifies keyOf.Keys`nameNext
        decreases |chain| - at
      {
        assert LinkedAt(links, chain, at) && chain[at] in keyOf;
        if current.nameNext == node {
          assert LinkedAt(links, chain, at + 1);
          current.nameNext := node.nameNext;
          at := at + 1;
          found := true;
          return;
        }
        current := current.nameNext;
        at := at + 1;
      }
    }

    /** Unlinks a filed node; a node that is not filed changes nothing. */
    method HashRemoveNode(node: Node)
      requires Valid() && node.parent != null
      modifies this, buckets, keyOf.Keys`nameNext
      ensures Valid()
      ensures keyOf == old(keyOf) - {node}
      ensures contents == if node in old(keyOf) then old(contents) - {old(keyOf)[node]} else old(contents)
    {
      hide HashName, Filed, Paired, AllLinked, Linked, Unlinked;
      var hash := HashName(Key(node.parent.id, node.name), buckets.Length);
      ghost var links, heads := LinksOf(keyOf.Keys), buckets[..];
      HomeChain(links, heads, chains, keyOf, hash, node);
      ghost var found, at := Unlink(node, hash);
      if found { Forget(hash, at, links, heads); }
    }

    /** Rename to an unused name: out under the old key, in under the new one. */
    method Rename(node: Node, newParent: Node, newName: string)
      requires Valid() && node in keyOf && node != newParent
      requires Key(newParent.id, newName) !in contents
      modifies this, buckets, keyOf.Keys`nameNext, node
      ensures Valid() && node.parent == newParent && node.name == newName
      ensures contents == (old(contents) - {old(keyOf)[node]})[Key(newParent.id, newName) := node]
    {
      hide HashName, Filed, Paired, AllLinked;
      HashRemoveNode(node);
      node.name := newName;
      node.parent := newParent;
      HashAddNode(node);
    }
  }
}
