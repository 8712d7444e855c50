/** The link tree of the schema generator: nested insertion, then distribution of the links under
    keys that do not collide. */
module LinkTree {
  import opened Text

  datatype Link = Link(url: string, id: nat)

  /** A link waiting in a node, with the key it would like. */
  datatype Item = Item(key: string, link: Link)

  datatype Entry = Child(node: LinkNode) | Leaf(link: Link)

  /** `f'{preferred_key}_{n}'` */
  function Numbered(preferred: string, n: nat): string {
    preferred + "_" + Str(n)
  }

  /** Different counter values give different keys. */
  lemma NumberedInjective(preferred: string, m: nat, n: nat)
    requires Numbered(preferred, m) == Numbered(preferred, n)
    ensures m == n
  {
    var a := preferred + "_";
    assert (a + Str(m))[|a|..] == Str(m) && (a + Str(n))[|a|..] == Str(n);
    StrIntInjective(m, n);
  }

  /** The used keys a search from counter value `n` on could still run into. */
  ghost function Taken(used: set<string>, preferred: string, n: nat): set<string> {
    set k | k in used && exists m: nat :: m >= n && k == Numbered(preferred, m)
  }

  lemma TakenShrinks(used: set<string>, preferred: string, n: nat)
    requires Numbered(preferred, n) in used
    ensures Taken(used, preferred, n + 1) < Taken(used, preferred, n)
  {
    var k := Numbered(preferred, n);
    assert k in Taken(used, preferred, n);
    if k in Taken(used, preferred, n + 1) {
      var m: nat :| m >= n + 1 && k == Numbered(preferred, m);
      NumberedInjective(preferred, m, n);
    }
  }

  /** The key is the preferred one or numbered after it. */
  ghost predicate After(preferred: string, key: string) {
    key == preferred || exists n: nat :: key == preferred + "_" + Str(n)
  }

  // ----- the whole tree as a value: each node's links under the node's path -----

  /** The links waiting in a node, and the keys the first of them have been placed under. */
  datatype NodeState = NodeState(links: seq<Item>, placed: seq<string>)

  const EMPTY := NodeState([], [])

  type Paths = map<seq<string>, NodeState>

  ghost function At(paths: Paths, path: seq<string>): NodeState {
    if path in paths then paths[path] else EMPTY
  }

  ghost predicate NothingPlaced(paths: Paths) {
    forall p :: p in paths ==> paths[p].placed == []
  }

  /** The part of the tree below key `k`. */
  ghost predicate Below(paths: Paths, k: string, sub: Paths) {
    && (forall p :: p in sub ==> [k] + p in paths && paths[[k] + p] == sub[p])
    && (forall p :: p in paths && p != [] && p[0] == k ==> p[1..] in sub)
  }

  ghost predicate NothingBelow(paths: Paths, k: string) {
    forall p :: p in paths && p != [] ==> p[0] != k
  }

  /** Insertion creates the nodes on the way and appends one link to the last of them. */
  ghost function Inserted(paths: Paths, keys: seq<string>, link: Link): Paths
    requires keys != []
  {
    var n := |keys| - 1;
    map p | p in paths.Keys + (set i | 0 <= i <= n :: keys[..i]) ::
      if p == keys[..n] then At(paths, p).(links := At(paths, p).links + [Item(keys[n], link)]) else At(paths, p)
  }

  lemma InsertedAt(paths: Paths, keys: seq<string>, link: Link, p: seq<string>)
    requires keys != []
    ensures p in Inserted(paths, keys, link) <==> p in paths || p <= keys[..|keys| - 1]
    ensures var n := |keys| - 1;
      p in Inserted(paths, keys, link) ==>
        (Inserted(paths, keys, link)[p]
         == if p == keys[..n] then At(paths, p).(links := At(paths, p).links + [Item(keys[n], link)]) else At(paths, p))
  {
    var n := |keys| - 1;
    if p <= keys[..n] { assert p == keys[..|p|]; }
  }

  lemma ConsPrefix(k: string, p: seq<string>, keys: seq<string>)
    requires |keys| >= 2 && keys[0] == k
    ensures [k] + p <= keys[..|keys| - 1] <==> p <= keys[1..][..|keys| - 2]
    ensures [k] + p == keys[..|keys| - 1] <==> p == keys[1..][..|keys| - 2]
  {
    assert keys[..|keys| - 1] == [k] + keys[1..][..|keys| - 2];
  }

  lemma AtBelow(paths: Paths, sub: Paths, k: string, p: seq<string>)
    requires Below(paths, k, sub)
    ensures At(paths, [k] + p) == At(sub, p)
    ensures [k] + p in paths <==> p in sub
  {
    assert ([k] + p)[1..] == p;
  }

  /** Insertion below a key is insertion of the remaining keys into the part below. */
  lemma InsertedBelow(paths: Paths, sub: Paths, keys: seq<string>, link: Link)
    requires |keys| >= 2
    requires Below(paths, keys[0], sub) && [] in sub
    ensures Below(Inserted(paths, keys, link), keys[0], Inserted(sub, keys[1..], link))
  {
    var k, rest := keys[0], keys[1..];
    var after, subAfter := Inserted(paths, keys, link), Inserted(sub, rest, link);
    forall p: seq<string>
      ensures [k] + p in after <==> p in subAfter
      ensures p in subAfter ==> after[[k] + p] == subAfter[p]
    {
      InsertedAt(paths, keys, link, [k] + p);
      InsertedAt(sub, rest, link, p);
      ConsPrefix(k, p, keys);
      AtBelow(paths, sub, k, p);
      assert rest[|rest| - 1] == keys[|keys| - 1];
    }
    forall p | p in after && p != [] && p[0] == k
      ensures p[1..] in subAfter
    {
      assert p == [k] + p[1..];
    }
  }

  /** Creating an empty node on the way first makes no difference to the insertion. */
  lemma InsertedAfterCreation(paths: Paths, keys: seq<string>, link: Link)
    requires |keys| >= 2 && NothingBelow(paths, keys[0])
    ensures Inserted(paths[[keys[0]] := EMPTY], keys, link) == Inserted(paths, keys, link)
  {
    var created := paths[[keys[0]] := EMPTY];
    assert [keys[0]] == keys[..1];
    assert [keys[0]] !in paths;
    forall p: seq<string>
      ensures p in Inserted(created, keys, link) <==> p in Inserted(paths, keys, link)
      ensures p in Inserted(paths, keys, link) ==> Inserted(created, keys, link)[p] == Inserted(paths, keys, link)[p]
    {
      InsertedAt(created, keys, link, p);
      InsertedAt(paths, keys, link, p);
    }
  }

  lemma InsertedElsewhere(paths: Paths, k: string, sub: Paths, keys: seq<string>, link: Link)
    requires keys != [] && (|keys| == 1 || k != keys[0]) && Below(paths, k, sub)
    ensures Below(Inserted(paths, keys, link), k, sub)
  {
    var after := Inserted(paths, keys, link);
    forall p | p in sub
      ensures [k] + p in after && after[[k] + p] == sub[p]
    {
      InsertedAt(paths, keys, link, [k] + p);
      assert ([k] + p)[0] == k;
    }
    forall p | p in after && p != [] && p[0] == k
      ensures p[1..] in sub
    {
      InsertedAt(paths, keys, link, p);
    }
  }

  lemma InsertedNothing(paths: Paths, k: string, keys: seq<string>, link: Link)
    requires keys != [] && (|keys| == 1 || k != keys[0]) && NothingBelow(paths, k)
    ensures NothingBelow(Inserted(paths, keys, link), k)
  {
    forall p | p in Inserted(paths, keys, link) && p != []
      ensures p[0] != k
    {
      InsertedAt(paths, keys, link, p);
    }
  }

  /** The tree with the part below `k` exchanged for another of the same shape. */
  ghost function Grafted(paths: Paths, k: string, sub: Paths): Paths {
    map p | p in paths :: if p != [] && p[0] == k && p[1..] in sub then sub[p[1..]] else paths[p]
  }

  lemma GraftedBelow(paths: Paths, k: string, sub: Paths, next: Paths)
    requires Below(paths, k, sub) && next.Keys == sub.Keys
    ensures Below(Grafted(paths, k, next), k, next)
  {
    forall p | p in next
      ensures [k] + p in Grafted(paths, k, next) && Grafted(paths, k, next)[[k] + p] == next[p]
    {
      assert ([k] + p)[0] == k && ([k] + p)[1..] == p;
    }
  }

  lemma GraftedElsewhere(paths: Paths, k: string, next: Paths, j: string, sub: Paths)
    requires j != k && Below(paths, j, sub)
    ensures Below(Grafted(paths, k, next), j, sub)
  {
    forall p | p in sub
      ensures [j] + p in Grafted(paths, k, next) && Grafted(paths, k, next)[[j] + p] == sub[p]
    {
      assert ([j] + p)[0] == j;
    }
  }

  lemma GraftedNothing(paths: Paths, k: string, next: Paths, j: string)
    requires NothingBelow(paths, j)
    ensures NothingBelow(Grafted(paths, k, next), j)
  {
  }

  /** Every link of the tree has been placed, and nothing else has changed. */
  ghost predicate Spread(before: Paths, after: Paths) {
    && after.Keys == before.Keys
    && forall p :: p in before ==> after[p].links == before[p].links && |after[p].placed| == |after[p].links|
  }

  /** The same, except at the root and below the keys that remain, where nothing has been placed. */
  ghost predicate SpreadExcept(before: Paths, after: Paths, remaining: set<string>) {
    && after.Keys == before.Keys
    && forall p :: p in before ==>
         && after[p].links == before[p].links
         && if p == [] || p[0] in remaining then after[p].placed == [] else |after[p].placed| == |after[p].links|
  }

  lemma GraftSpreads(before: Paths, after: Paths, remaining: set<string>, k: string, sub: Paths, next: Paths)
    requires SpreadExcept(before, after, remaining) && Below(after, k, sub) && Spread(sub, next)
    ensures SpreadExcept(before, Grafted(after, k, next), remaining - {k})
  {
    var g := Grafted(after, k, next);
    forall p | p in before
      ensures g[p].links == before[p].links
      ensures if p == [] || p[0] in remaining - {k} then g[p].placed == [] else |g[p].placed| == |g[p].links|
    {
      if p != [] && p[0] == k {
        assert p[1..] in sub && [k] + p[1..] == p;
        assert after[p] == sub[p[1..]];
      }
    }
  }

  lemma RemainingBelow(before: Paths, after: Paths, remaining: set<string>, k: string, sub: Paths)
    requires SpreadExcept(before, after, remaining) && k in remaining && Below(after, k, sub)
    ensures forall p :: p in sub ==> sub[p].placed == []
  {
    forall p | p in sub
      ensures sub[p].placed == []
    {
      assert ([k] + p)[0] == k && after[[k] + p] == sub[p];
    }
  }

  // ----- the nodes -----

  /** The leaves among the entries are exactly the links placed so far, each under one key that is
      the preferred key or numbered after it. */
  ghost predicate PlacedInOrder(entries: map<string, Entry>, links: seq<Item>, placed: seq<string>) {
    && |placed| <= |links|
    && (forall i :: 0 <= i < |placed| ==>
          placed[i] in entries && entries[placed[i]] == Leaf(links[i].link) && After(links[i].key, placed[i]))
    && (forall i, j :: 0 <= i < j < |placed| ==> placed[i] != placed[j])
    && (forall k :: k in entries && entries[k].Leaf? ==> k in placed)
  }

  lemma InsertedPlaces(paths: Paths, keys: seq<string>, link: Link)
    requires keys != []
    ensures NothingPlaced(paths) ==> NothingPlaced(Inserted(paths, keys, link))
  {
    forall p | p in Inserted(paths, keys, link)
      ensures NothingPlaced(paths) ==> Inserted(paths, keys, link)[p].placed == []
    {
      InsertedAt(paths, keys, link, p);
    }
  }

  lemma InsertedOne(paths: Paths, keys: seq<string>, link: Link)
    requires |keys| == 1 && [] in paths
    ensures var after := Inserted(paths, keys, link);
      && [] in after && after[[]] == NodeState(paths[[]].links + [Item(keys[0], link)], paths[[]].placed)
      && (NothingPlaced(paths) ==> NothingPlaced(after))
  {
    InsertedAt(paths, keys, link, []);
    InsertedPlaces(paths, keys, link);
  }

  lemma InsertedRoot(paths: Paths, keys: seq<string>, link: Link)
    requires |keys| >= 2 && [] in paths
    ensures var after := Inserted(paths, keys, link);
      [] in after && after[[]] == paths[[]] && (NothingPlaced(paths) ==> NothingPlaced(after))
  {
    InsertedAt(paths, keys, link, []);
    InsertedPlaces(paths, keys, link);
  }

  lemma StartSpread(paths: Paths, remaining: set<string>)
    requires forall p :: p in paths ==> paths[p].placed == []
    requires forall k :: k !in remaining ==> NothingBelow(paths, k)
    ensures SpreadExcept(paths, paths, remaining)
  {
    forall p | p in paths && p != []
      ensures p[0] in remaining
    {
      assert p[0] !in remaining ==> NothingBelow(paths, p[0]);
    }
  }

  lemma SpreadKeys(before: Paths, after: Paths)
    requires Spread(before, after)
    ensures after.Keys == before.Keys
  {
  }

  lemma GraftedRoot(paths: Paths, k: string, next: Paths)
    requires [] in paths
    ensures [] in Grafted(paths, k, next) && Grafted(paths, k, next)[[]] == paths[[]]
  {
  }

  lemma RootBelow(paths: Paths, state: NodeState, k: string, sub: Paths)
    requires Below(paths, k, sub)
    ensures Below(paths[[] := state], k, sub)
  {
  }

  lemma RootNothing(paths: Paths, state: NodeState, k: string)
    requires NothingBelow(paths, k)
    ensures NothingBelow(paths[[] := state], k)
  {
  }

  class LinkNode {
    var entries: map<string, Entry>
    var links: seq<Item>
    var methodsCounter: map<string, nat>
    ghost var placed: seq<string>  // the keys the links have been placed under so far, in order
    ghost var tree: Paths          // the tree below this node as a value
    ghost var Repr: set<LinkNode>

    ghost predicate Valid()
      reads this, Repr
      decreases Repr
    {
      && this in Repr
      && PlacedInOrder(entries, links, placed)
      && [] in tree && tree[[]] == NodeState(links, placed)
      && (forall k :: k in entries && entries[k].Child? ==>
            && entries[k].node in Repr && entries[k].node.Repr <= Repr && this !in entries[k].node.Repr
            && entries[k].node.Valid()
            && Below(tree, k, entries[k].node.tree))
      && (forall k :: k !in entries || entries[k].Leaf? ==> NothingBelow(tree, k))
      && (forall j, k :: j in entries && k in entries && j != k && entries[j].Child? && entries[k].Child? ==>
            entries[j].node.Repr !! entries[k].node.Repr)
    }

    constructor ()
      ensures Valid() && fresh(Repr)
      ensures entries == map[] && tree == map[[] := EMPTY]
    {
      entries, links, methodsCounter := map[], [], map[];
      placed, tree, Repr := [], map[[] := EMPTY], {this};
    }

    /** How often a numbered key has been tried for the preferred key. */
    function CounterOf(preferred: string): (counter: nat)
      reads `methodsCounter
      ensures preferred !in methodsCounter ==> counter == 0
    {
      if preferred in methodsCounter then methodsCounter[preferred] else 0
    }

    /** The preferred key if it is not in use, or else the first free numbered one from the counter
        on; the counter then stands behind it. */
    twostate predicate Chosen(preferred: string, key: string)
      reads this
    {
      if preferred !in entries then key == preferred && methodsCounter == old(methodsCounter)
      else
        && CounterOf(preferred) > old(CounterOf(preferred))
        && methodsCounter == old(methodsCounter)[preferred := CounterOf(preferred)]
        && key == preferred + "_" + Str(CounterOf(preferred) - 1)
        && forall n :: old(CounterOf(preferred)) <= n < CounterOf(preferred) - 1 ==>
             preferred + "_" + Str(n) in entries
    }

    method GetAvailableKey(preferred: string) returns (key: string)
      modifies `methodsCounter
      ensures Chosen(preferred, key)
      ensures key !in entries && After(preferred, key)
    {
      if preferred !in entries {
        return preferred;
      }
      while true
        invariant CounterOf(preferred) >= old(CounterOf(preferred))
        invariant methodsCounter in {old(methodsCounter), old(methodsCounter)[preferred := CounterOf(preferred)]}
        invariant forall n :: old(CounterOf(preferred)) <= n < CounterOf(preferred) ==>
          preferred + "_" + Str(n) in entries
        decreases Taken(entries.Keys, preferred, CounterOf(preferred))
      {
        var currentVal := CounterOf(preferred);
        methodsCounter := methodsCounter[preferred := currentVal + 1];
        assert methodsCounter == old(methodsCounter)[preferred := currentVal + 1];
        key := Numbered(preferred, currentVal);
        if key !in entries {
          return;
        }
        TakenShrinks(entries.Keys, preferred, currentVal);
      }
    }

    /** No link has been placed anywhere yet. */
    ghost predicate Undistributed()
      reads this
    {
      NothingPlaced(tree)
    }

    /** A link stands where the keys lead through, in a tree that has been distributed. */
    ghost predicate Blocked(keys: seq<string>)
      requires Valid()
      reads Repr
      decreases |keys|
    {
      && |keys| >= 2 && keys[0] in entries
      && (entries[keys[0]].Leaf? || entries[keys[0]].node.Blocked(keys[1..]))
    }

    lemma NoLeaf(k: string)
      requires Valid() && Undistributed() && k in entries
      ensures entries[k].Child?
    {
      assert tree[[]].placed == [];
    }

    lemma ChildUndistributed(k: string)
      requires Valid() && Undistributed() && k in entries && entries[k].Child?
      ensures entries[k].node.Undistributed()
    {
      var sub := entries[k].node.tree;
      forall p | p in sub
        ensures sub[p].placed == []
      {
        assert tree[[k] + p] == sub[p];
      }
    }

    lemma {:induction false} UndistributedIsOpen(keys: seq<string>)
      requires Valid() && Undistributed()
      ensures !Blocked(keys)
      decreases |keys|
    {
      if |keys| >= 2 && keys[0] in entries {
        NoLeaf(keys[0]);
        ChildUndistributed(keys[0]);
        entries[keys[0]].node.UndistributedIsOpen(keys[1..]);
      }
    }

    lemma AppendInOrder(entries: map<string, Entry>, links: seq<Item>, placed: seq<string>, item: Item)
      requires PlacedInOrder(entries, links, placed)
      ensures PlacedInOrder(entries, links + [item], placed)
    {
    }

    method Append(keys: seq<string>, link: Link)
      requires Valid() && |keys| == 1
      modifies this
      ensures Valid() && Repr == old(Repr) && entries == old(entries) && (old(Undistributed()) ==> Undistributed())
      ensures tree == Inserted(old(tree), keys, link)
    {
      hide Inserted, Below, NothingBelow, PlacedInOrder;
      ghost var was := tree;
      AppendInOrder(entries, links, placed, Item(keys[0], link));
      links := links + [Item(keys[0], link)];
      tree := Inserted(tree, keys, link);
      InsertedOne(was, keys, link);
      forall k | k in entries && entries[k].Child?
        ensures Below(tree, k, entries[k].node.tree)
      {
        InsertedElsewhere(was, k, entries[k].node.tree, keys, link);
      }
      forall k | k !in entries || entries[k].Leaf?
        ensures NothingBelow(tree, k)
      {
        InsertedNothing(was, k, keys, link);
      }
    }

    /** Walk down the keys, creating the nodes that are missing, and append the link.  It raises exactly
        if a link stands in the way, and has then changed nothing. */
    method InsertInto(keys: seq<string>, link: Link) returns (ok: bool)
      requires Valid() && keys != []
      modifies Repr
      ensures Valid() && fresh(Repr - old(Repr)) && (old(Undistributed()) ==> Undistributed())
      ensures ok <==> !old(Blocked(keys))
      ensures tree == if ok then Inserted(old(tree), keys, link) else old(tree)
      ensures ok ==> entries.Keys == old(entries).Keys + if |keys| == 1 then {} else {keys[0]}
      decreases |keys|, 2
    {
      if |keys| == 1 {
        Append(keys, link);
        ok := true;
      } else {
        ok := Descend(keys, link);
      }
    }

    lemma EmptyIsOpen(key: string, keys: seq<string>)
      requires Valid() && key in entries && entries[key].Child? && entries[key].node.entries == map[]
      ensures !entries[key].node.Blocked(keys)
    {
    }

    lemma CreatedInOrder(entries: map<string, Entry>, links: seq<Item>, placed: seq<string>, key: string,
                         node: LinkNode)
      requires PlacedInOrder(entries, links, placed) && key !in entries
      ensures PlacedInOrder(entries[key := Child(node)], links, placed)
    {
    }

    lemma CreatedNothing(paths: Paths, key: string, k: string)
      requires k != key && NothingBelow(paths, k)
      ensures NothingBelow(paths[[key] := EMPTY], k)
    {
    }

    lemma CreatedBelow(paths: Paths, key: string, k: string, sub: Paths)
      requires if k == key then NothingBelow(paths, k) && sub == map[[] := EMPTY] else Below(paths, k, sub)
      ensures Below(paths[[key] := EMPTY], k, sub)
    {
      var after := paths[[key] := EMPTY];
      forall p | p in sub
        ensures [k] + p in after && after[[k] + p] == sub[p]
      {
        assert ([k] + p)[0] == k && ([k] + p)[1..] == p;
        if k == key { assert [k] + p == [key]; }
      }
      assert [key][1..] == [];
    }

    /** Bookkeeping once the tree below one child has changed. */
    ghost method Rejoin(key: string, next: Paths)
      requires this in Repr && PlacedInOrder(entries, links, placed)
      requires key in entries && entries[key].Child?
      requires [] in next && next[[]] == NodeState(links, placed)
      requires forall k :: k in entries && entries[k].Child? ==>
        && entries[k].node.Valid() && this !in entries[k].node.Repr && Below(next, k, entries[k].node.tree)
        && (k != key ==> entries[k].node in Repr && entries[k].node.Repr <= Repr)
      requires forall k :: k !in entries || entries[k].Leaf? ==> NothingBelow(next, k)
      requires forall j, k :: j in entries && k in entries && j != k && entries[j].Child? && entries[k].Child? ==>
        entries[j].node.Repr !! entries[k].node.Repr
      modifies `Repr, `tree
      ensures Valid() && Repr == old(Repr) + entries[key].node.Repr && tree == next
    {
      hide Below, NothingBelow, PlacedInOrder;
      Repr := Repr + entries[key].node.Repr;
      tree := next;
    }

    /** `target[key] = LinkNode()` for a key not yet in use */
    method Create(key: string)
      requires Valid() && key !in entries
      modifies this
      ensures Valid() && fresh(Repr - old(Repr)) && (old(Undistributed()) ==> Undistributed())
      ensures tree == old(tree)[[key] := EMPTY]
      ensures entries.Keys == old(entries).Keys + {key} && entries[key].Child? && entries[key].node.entries == map[]
    {
      hide Below, NothingBelow, PlacedInOrder;
      ghost var was, before := tree, entries;
      var node := new LinkNode();
      CreatedInOrder(entries, links, placed, key, node);
      entries := entries[key := Child(node)];
      ghost var next := tree[[key] := EMPTY];
      forall k | k in entries && entries[k].Child?
        ensures entries[k].node.Valid() && Below(next, k, entries[k].node.tree)
      {
        if k != key { assert before[k] == entries[k] && before[k].node.Valid(); }
        CreatedBelow(was, key, k, entries[k].node.tree);
      }
      forall k | k !in entries || entries[k].Leaf?
        ensures NothingBelow(next, k)
      {
        assert k !in before || before[k].Leaf?;
        CreatedNothing(was, key, k);
      }
      forall j, k | j in entries && k in entries && j != k && entries[j].Child? && entries[k].Child?
        ensures entries[j].node.Repr !! entries[k].node.Repr
      {
        if j != key && k != key { assert before[j].node.Repr !! before[k].node.Repr; }
      }
      Rejoin(key, next);
    }

    method Descend(keys: seq<string>, link: Link) returns (ok: bool)
      requires Valid() && |keys| >= 2
      modifies Repr
      ensures Valid() && fresh(Repr - old(Repr)) && (old(Undistributed()) ==> Undistributed())
      ensures ok <==> !old(Blocked(keys))
      ensures tree == if ok then Inserted(old(tree), keys, link) else old(tree)
      ensures ok ==> entries.Keys == old(entries).Keys + {keys[0]}
      decreases |keys|, 1
    {
      hide PlacedInOrder, Inserted, Below;
      if keys[0] !in entries {
        InsertedAfterCreation(tree, keys, link);
        Create(keys[0]);
        EmptyIsOpen(keys[0], keys[1..]);
      }
      if entries[keys[0]].Leaf? {
        return false;
      }
      ok := InsertBelow(keys, link);
    }

    lemma ChildRoot(k: string)
      requires Valid() && k in entries && entries[k].Child?
      ensures [] in entries[k].node.tree && Below(tree, k, entries[k].node.tree)
    {
    }

    method InsertBelow(keys: seq<string>, link: Link) returns (ok: bool)
      requires Valid() && |keys| >= 2 && keys[0] in entries && entries[keys[0]].Child?
      modifies Repr
      ensures Valid() && fresh(Repr - old(Repr)) && entries == old(entries)
          && (old(Undistributed()) ==> Undistributed())
      ensures ok <==> !old(entries[keys[0]].node.Blocked(keys[1..]))
      ensures tree == if ok then Inserted(old(tree), keys, link) else old(tree)
      decreases |keys|, 0
    {
      hide PlacedInOrder, Inserted, Below, NothingBelow;
      var key := keys[0];
      var target := entries[key].node;
      ghost var was, sub := tree, target.tree;
      ChildRoot(key);
      ok := target.InsertInto(keys[1..], link);
      ghost var next := if ok then Inserted(tree, keys, link) else tree;
      InsertedRoot(was, keys, link);
      InsertedBelow(was, sub, keys, link);
      forall k | k in entries && entries[k].Child? && k != key
        ensures entries[k].node.Valid() && Below(next, k, entries[k].node.tree)
        ensures entries[k].node.Repr !! target.Repr
      {
        assert unchanged(entries[k].node.Repr);
        Untouched(entries[k].node);
        if ok { InsertedElsewhere(was, k, entries[k].node.tree, keys, link); }
      }
      forall k | k !in entries || entries[k].Leaf?
        ensures NothingBelow(next, k)
      {
        if ok { InsertedNothing(was, k, keys, link); }
      }
      Rejoin(key, next);
    }

    method Place(key: string, item: Item)
      requires Valid() && |placed| < |links| && item == links[|placed|]
      requires key !in entries && After(item.key, key)
      modifies this
      ensures Valid() && Repr == old(Repr) && links == old(links) && |placed| == |old(placed)| + 1
      ensures tree == old(tree)[[] := NodeState(links, placed)]
      ensures forall k :: k in old(entries) ==> k in entries && entries[k] == old(entries)[k]
    {
      hide Below, NothingBelow, PlacedInOrder, After;
      ghost var was, before := tree, entries;
      NextInOrder(entries, links, placed, key);
      entries := entries[key := Leaf(item.link)];
      placed := placed + [key];
      tree := tree[[] := NodeState(links, placed)];
      forall k | k in entries && entries[k].Child?
        ensures Below(tree, k, entries[k].node.tree)
      {
        assert before[k] == entries[k];
        RootBelow(was, NodeState(links, placed), k, entries[k].node.tree);
      }
      forall k | k !in entries || entries[k].Leaf?
        ensures NothingBelow(tree, k)
      {
        assert k !in before || before[k].Leaf?;
        RootNothing(was, NodeState(links, placed), k);
      }
      forall k | k in entries && entries[k].Child?
        ensures var c := entries[k].node; c in Repr && c.Repr <= Repr && this !in c.Repr && c.Valid()
      {
        assert before[k] == entries[k];
      }
      forall j, k | j in entries && k in entries && j != k && entries[j].Child? && entries[k].Child?
        ensures entries[j].node.Repr !! entries[k].node.Repr
      {
        assert before[j] == entries[j] && before[k] == entries[k];
      }
    }

    /** `obj[key] = link` for the next link, under a key not in use */
    method PlaceNext(item: Item)
      requires Valid() && |placed| < |links| && item == links[|placed|]
      modifies this
      ensures Valid() && Repr == old(Repr) && links == old(links) && |placed| == |old(placed)| + 1
      ensures tree == old(tree)[[] := NodeState(links, placed)]
      ensures forall k :: k in old(entries) ==> k in entries && entries[k] == old(entries)[k]
    {
      hide Below, NothingBelow, PlacedInOrder, After, Chosen;
      var key := GetAvailableKey(item.key);
      Place(key, item);
    }

    method PlaceLinks()
      requires Valid() && placed == []
      modifies this
      ensures Valid() && Repr == old(Repr) && links == old(links) && |placed| == |links|
      ensures tree == old(tree)[[] := NodeState(links, placed)]
      ensures forall k :: k in old(entries) ==> k in entries && entries[k] == old(entries)[k]
    {
      var i := 0;
      while i < |links|
        invariant 0 <= i <= |links| && Valid() && Repr == old(Repr) && links == old(links) && |placed| == i
        invariant tree == old(tree)[[] := NodeState(links, placed)]
        invariant forall k :: k in old(entries) ==> k in entries && entries[k] == old(entries)[k]
      {
        PlaceNext(links[i]);
        i := i + 1;
      }
    }

    /** `distribute_links`: first below every child, then the links of the node itself. */
    method DistributeLinks()
      requires Valid() && Undistributed()
      modifies Repr
      ensures Valid() && Repr == old(Repr) && Spread(old(tree), tree)
      ensures forall k :: k in old(entries) ==> k in entries && entries[k] == old(entries)[k]
      decreases Repr, 2
    {
      hide Below, NothingBelow, PlacedInOrder;
      DistributeChildren();
      PlaceLinks();
    }

    lemma AllChildren()
      requires Valid() && placed == []
      ensures forall k :: k in entries ==> entries[k].Child?
    {
    }

    method DistributeChildren()
      requires Valid() && Undistributed()
      modifies Repr
      ensures Valid() && Repr == old(Repr) && entries == old(entries) && links == old(links) && placed == []
      ensures SpreadExcept(old(tree), tree, {})
      decreases Repr, 1
    {
      hide Below, NothingBelow, PlacedInOrder, Spread, SpreadExcept;
      ghost var before := tree;
      var remaining := entries.Keys;
      StartSpread(tree, remaining);
      assert placed == [] by { assert tree[[]].placed == []; }
      AllChildren();
      while remaining != {}
        invariant Valid() && Repr == old(Repr) && entries == old(entries) && links == old(links) && placed == []
        invariant remaining <= entries.Keys
        invariant forall k :: k in entries ==> entries[k].Child?
        invariant SpreadExcept(before, tree, remaining)
        decreases remaining
      {
        var key :| key in remaining;
        DistributeBelow(key, before, remaining);
        remaining := remaining - {key};
      }
    }

    method DistributeBelow(key: string, ghost before: Paths, ghost remaining: set<string>)
      requires Valid() && key in entries && entries[key].Child? && key in remaining
      requires SpreadExcept(before, tree, remaining)
      modifies Repr
      ensures Valid() && Repr == old(Repr) && entries == old(entries) && links == old(links) && placed == old(placed)
      ensures SpreadExcept(before, tree, remaining - {key})
      decreases Repr, 0
    {
      hide Below, NothingBelow, PlacedInOrder, Spread, SpreadExcept, Grafted;
      var value := entries[key].node;
      ghost var was, sub := tree, value.tree;
      RemainingBelow(before, tree, remaining, key, sub);
      value.DistributeLinks();
      ghost var next := Grafted(tree, key, value.tree);
      SpreadKeys(sub, value.tree);
      GraftedBelow(was, key, sub, value.tree);
      GraftedRoot(was, key, value.tree);
      GraftSpreads(before, was, remaining, key, sub, value.tree);
      forall k | k in entries && entries[k].Child? && k != key
        ensures entries[k].node.Valid() && Below(next, k, entries[k].node.tree)
        ensures entries[k].node.Repr !! value.Repr
      {
        assert unchanged(entries[k].node.Repr);
        Untouched(entries[k].node);
        GraftedElsewhere(was, key, value.tree, k, entries[k].node.tree);
      }
      forall k | k !in entries || entries[k].Leaf?
        ensures NothingBelow(next, k)
      {
        GraftedNothing(was, key, value.tree, k);
      }
      Rejoin(key, next);
    }

    /** The node the entries lead to along a path of keys. */
    ghost function NodeAt(path: seq<string>): (n: LinkNode?)
      requires Valid()
      reads Repr
      ensures n != null ==> n in Repr
      decreases |path|
    {
      if path == [] then this
      else if path[0] in entries && entries[path[0]].Child? then entries[path[0]].node.NodeAt(path[1..])
      else null
    }

    /** The tree value is what walking the entries finds: its paths are exactly those at which a node
        stands, and the node holds the recorded links, placed one by one under distinct keys of its own. */
    lemma {:induction false} TreeIsReal(path: seq<string>)
      requires Valid()
      ensures path in tree <==> NodeAt(path) != null
      ensures path in tree ==>
        var n := NodeAt(path);
        tree[path] == NodeState(n.links, n.placed) && PlacedInOrder(n.entries, n.links, n.placed)
      decreases |path|
    {
      hide PlacedInOrder;
      if path != [] {
        var k := path[0];
        assert [k] + path[1..] == path;
        if k in entries && entries[k].Child? {
          assert Below(tree, k, entries[k].node.tree);
          entries[k].node.TreeIsReal(path[1..]);
        } else {
          assert NothingBelow(tree, k);
        }
      }
    }

    /** The node at the path has the link under the key it would like or one numbered after it. */
    ghost predicate Holds(path: seq<string>, item: Item)
      requires Valid()
      reads Repr
    {
      var n := NodeAt(path);
      n != null && exists key :: key in n.entries && n.entries[key] == Leaf(item.link) && After(item.key, key)
    }

    lemma PlacedIsHeld(path: seq<string>, i: nat)
      requires Valid() && path in tree && i < |tree[path].links| == |tree[path].placed|
      ensures Holds(path, tree[path].links[i])
    {
      hide After;
      TreeIsReal(path);
      var n := NodeAt(path);
      assert n.placed[i] in n.entries;
    }
  }

  // ----- building a schema -----

  datatype Insertion = Insertion(keys: seq<string>, link: Link) {
    /** The path of the node the link goes to. */
    function Path(): seq<string>
      requires keys != []
    {
      keys[..|keys| - 1]
    }

    function Wanted(): Item
      requires keys != []
    {
      Item(keys[|keys| - 1], link)
    }
  }

  /** The links inserted under a path, in order. */
  function ItemsAt(insertions: seq<Insertion>, path: seq<string>): seq<Item>
    requires forall i :: 0 <= i < |insertions| ==> insertions[i].keys != []
  {
    if insertions == [] then []
    else
      var last := insertions[|insertions| - 1];
      var n := |last.keys| - 1;
      ItemsAt(insertions[..|insertions| - 1], path)
      + if last.keys[..n] == path then [Item(last.keys[n], last.link)] else []
  }

  ghost predicate HoldsItems(tree: Paths, insertions: seq<Insertion>)
    requires forall i :: 0 <= i < |insertions| ==> insertions[i].keys != []
  {
    forall path :: At(tree, path).links == ItemsAt(insertions, path)
  }

  lemma NextItems(insertions: seq<Insertion>, i: nat, path: seq<string>)
    requires i < |insertions| && forall j :: 0 <= j < |insertions| ==> insertions[j].keys != []
    ensures var keys := insertions[i].keys;
      ItemsAt(insertions[..i + 1], path)
      == ItemsAt(insertions[..i], path)
         + if keys[..|keys| - 1] == path then [Item(keys[|keys| - 1], insertions[i].link)] else []
  {
    assert insertions[..i + 1][..i] == insertions[..i];
  }

  lemma InsertedItems(was: Paths, insertions: seq<Insertion>, i: nat)
    requires i < |insertions| && forall j :: 0 <= j < |insertions| ==> insertions[j].keys != []
    requires HoldsItems(was, insertions[..i])
    ensures HoldsItems(Inserted(was, insertions[i].keys, insertions[i].link), insertions[..i + 1])
  {
    hide Inserted, ItemsAt;
    var now := Inserted(was, insertions[i].keys, insertions[i].link);
    forall path
      ensures At(now, path).links == ItemsAt(insertions[..i + 1], path)
    {
      InsertedAt(was, insertions[i].keys, insertions[i].link, path);
      NextItems(insertions, i, path);
    }
  }

  /** The keys that lead away from the root. */
  ghost function FirstKeys(insertions: seq<Insertion>): set<string> {
    set i | 0 <= i < |insertions| && |insertions[i].keys| > 1 :: insertions[i].keys[0]
  }

  lemma NextFirst(insertions: seq<Insertion>, i: nat)
    requires i < |insertions| && insertions[i].keys != []
    ensures FirstKeys(insertions[..i + 1])
         == FirstKeys(insertions[..i]) + if |insertions[i].keys| == 1 then {} else {insertions[i].keys[0]}
  {
  }

  lemma NoFirstKeys(insertions: seq<Insertion>)
    ensures FirstKeys(insertions) == {} <==> forall i :: 0 <= i < |insertions| ==> |insertions[i].keys| <= 1
  {
    forall i | 0 <= i < |insertions| && |insertions[i].keys| > 1
      ensures insertions[i].keys[0] in FirstKeys(insertions)
    {
    }
  }

  /** The loop of `get_links` */
  method GetLinks(insertions: seq<Insertion>) returns (links: LinkNode)
    requires forall i :: 0 <= i < |insertions| ==> insertions[i].keys != []
    ensures links.Valid() && links.Undistributed() && fresh(links.Repr)
    ensures links.entries.Keys == FirstKeys(insertions)
    ensures HoldsItems(links.tree, insertions)
  {
    links := new LinkNode();
    assert HoldsItems(links.tree, insertions[..0]) && links.entries.Keys == FirstKeys(insertions[..0]);
    hide Inserted, HoldsItems, FirstKeys, Below, NothingBelow, PlacedInOrder;
    var i := 0;
    while i < |insertions|
      invariant 0 <= i <= |insertions|
      invariant links.Valid() && links.Undistributed() && fresh(links.Repr)
      invariant links.entries.Keys == FirstKeys(insertions[..i])
      invariant HoldsItems(links.tree, insertions[..i])
    {
      InsertedItems(links.tree, insertions, i);
      NextFirst(insertions, i);
      links.UndistributedIsOpen(insertions[i].keys);
      var ok := links.InsertInto(insertions[i].keys, insertions[i].link);
      i := i + 1;
    }
    assert insertions[..i] == insertions;
  }

  /** Every node has placed all its links. */
  ghost predicate FullyPlaced(tree: Paths) {
    forall path :: |At(tree, path).placed| == |At(tree, path).links|
  }

  ghost predicate HoldsAll(root: LinkNode, insertions: seq<Insertion>)
    requires root.Valid() && forall i :: 0 <= i < |insertions| ==> insertions[i].keys != []
    reads root, root.Repr
  {
    forall i :: 0 <= i < |insertions| ==> root.Holds(insertions[i].Path(), insertions[i].Wanted())
  }

  lemma {:induction false} ItemsAtHold(insertions: seq<Insertion>, i: nat)
    requires i < |insertions| && forall j :: 0 <= j < |insertions| ==> insertions[j].keys != []
    ensures insertions[i].Wanted() in ItemsAt(insertions, insertions[i].Path())
  {
    if i < |insertions| - 1 {
      var init := insertions[..|insertions| - 1];
      assert init[i] == insertions[i];
      ItemsAtHold(init, i);
    }
  }

  lemma FindItem(tree: Paths, insertions: seq<Insertion>, i: nat) returns (j: nat)
    requires i < |insertions| && forall j :: 0 <= j < |insertions| ==> insertions[j].keys != []
    requires HoldsItems(tree, insertions)
    ensures insertions[i].Path() in tree
    ensures j < |tree[insertions[i].Path()].links| && tree[insertions[i].Path()].links[j] == insertions[i].Wanted()
  {
    hide ItemsAt;
    var path := insertions[i].Path();
    ItemsAtHold(insertions, i);
    assert At(tree, path).links == ItemsAt(insertions, path);
    j :| 0 <= j < |At(tree, path).links| && At(tree, path).links[j] == insertions[i].Wanted();
  }

  lemma AllHeld(root: LinkNode, insertions: seq<Insertion>)
    requires root.Valid() && forall i :: 0 <= i < |insertions| ==> insertions[i].keys != []
    requires HoldsItems(root.tree, insertions) && FullyPlaced(root.tree)
    ensures HoldsAll(root, insertions)
  {
    hide HoldsItems, PlacedInOrder, Below, NothingBelow, After;
    forall i | 0 <= i < |insertions|
      ensures root.Holds(insertions[i].Path(), insertions[i].Wanted())
    {
      var j := FindItem(root.tree, insertions, i);
      assert |At(root.tree, insertions[i].Path()).placed| == |At(root.tree, insertions[i].Path()).links|;
      root.PlacedIsHeld(insertions[i].Path(), j);
    }
  }

  lemma SpreadAt(before: Paths, after: Paths)
    requires Spread(before, after)
    ensures forall path :: At(after, path).links == At(before, path).links
    ensures forall path :: |At(after, path).placed| == |At(after, path).links|
  {
  }

  lemma SpreadItems(before: Paths, after: Paths, insertions: seq<Insertion>)
    requires forall i :: 0 <= i < |insertions| ==> insertions[i].keys != []
    requires Spread(before, after) && HoldsItems(before, insertions)
    ensures HoldsItems(after, insertions) && FullyPlaced(after)
  {
    hide ItemsAt, Spread;
    SpreadAt(before, after);
    forall path
      ensures At(after, path).links == ItemsAt(insertions, path)
    {
      assert At(before, path).links == ItemsAt(insertions, path);
    }
  }

  /** Insert every link, then distribute: no link is lost, moved or overwritten, and every one sits
      in the node of its path under exactly one key.  The exception: a root without child nodes is
      an empty dictionary, so if all the links belong at the root there is no schema at all. */
  method GetSchema(insertions: seq<Insertion>) returns (schema: LinkNode?)
    requires forall i :: 0 <= i < |insertions| ==> insertions[i].keys != []
    ensures schema == null <==> forall i :: 0 <= i < |insertions| ==> |insertions[i].keys| == 1
    ensures schema != null ==>
      && schema.Valid() && fresh(schema.Repr)
      && HoldsItems(schema.tree, insertions) && FullyPlaced(schema.tree) && HoldsAll(schema, insertions)
  {
    hide ItemsAt, HoldsItems, FullyPlaced, HoldsAll, FirstKeys, Spread, Below, NothingBelow, PlacedInOrder;
    var links := GetLinks(insertions);
    NoFirstKeys(insertions);
    assert links.entries == map[] <==> links.entries.Keys == {};
    if links.entries == map[] {
      return null;
    }
    ghost var before := links.tree;
    links.DistributeLinks();
    SpreadItems(before, links.tree, insertions);
    AllHeld(links, insertions);
    schema := links;
  }

  /** The missing schema: a single link that belongs at the root. */
  method RootLinkAlone(link: Link) returns (schema: LinkNode?)
    ensures schema == null
  {
    schema := GetSchema([Insertion(["list"], link)]);
  }

  /** A node none of whose objects has changed is still valid. */
  twostate lemma Untouched(c: LinkNode)
    requires old(c.Valid()) && unchanged(c) && unchanged(c.Repr)
    ensures c.Valid()
  {
  }

  lemma NextInOrder(entries: map<string, Entry>, links: seq<Item>, placed: seq<string>, key: string)
    requires PlacedInOrder(entries, links, placed) && |placed| < |links|
    requires key !in entries && After(links[|placed|].key, key)
    ensures PlacedInOrder(entries[key := Leaf(links[|placed|].link)], links, placed + [key])
  {
    hide After;
  }
}
