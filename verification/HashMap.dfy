/**
  The chained hash map of hashmap.c: an array of buckets, each the head of a doubly linked
  chain of nodes.  Hash and equality come from the caller.  `nodes` is the node memory: an
  address is in its domain from `malloc` to `free`, and address 0 never is.

  `repaired` false is the code as written: `expandHashmap` does not reset the `prev` of a node
  it relinks, and `ht_delete` never writes `data[index]`.  `repaired` true adds these two
  assignments and nothing else.
 */
module HashMap {
  import opened Collections
  import opened Wrappers

  /** Keys and values are `void *`: the map compares and hashes keys only through the caller's functions. */
  type Pointer = nat

  // ---------------------------------------------------------------- bucket indices

  /** The C operator `&` on unsigned integers. */
  function BitAnd(a: nat, b: nat): nat {
    if a == 0 || b == 0 then 0 else 2 * BitAnd(a / 2, b / 2) + (if a % 2 == 1 && b % 2 == 1 then 1 else 0)
  }

  function Pow2(k: nat): (p: nat)
    ensures 0 < p
  {
    if k == 0 then 1 else 2 * Pow2(k - 1)
  }

  ghost predicate IsPow2(n: nat) { exists k: nat :: Pow2(k) == n }

  /** `hash & (length - 1)` is the remainder of the division by the length when that is a power of two. */
  lemma {:induction false} MaskIsRemainder(h: nat, k: nat) returns (quotient: nat)
    ensures h == Pow2(k) * quotient + BitAnd(h, Pow2(k) - 1) && BitAnd(h, Pow2(k) - 1) < Pow2(k)
  {
    if k == 0 || h == 0 {
      quotient := h;
    } else {
      var p := Pow2(k - 1);
      quotient := MaskIsRemainder(h / 2, k - 1);
      OddMask(h, p);
      DoubleUp(h, p, quotient, BitAnd(h / 2, p - 1));
    }
  }

  lemma DoubleUp(h: nat, p: nat, q: nat, r: nat)
    requires h / 2 == p * q + r && r < p
    ensures h == (2 * p) * q + (2 * r + h % 2) && 2 * r + h % 2 < 2 * p
  {
    assert 2 * (p * q) == (2 * p) * q;
  }

  lemma OddMask(h: nat, p: nat)
    requires 0 < p && 0 < h
    ensures BitAnd(h, 2 * p - 1) == 2 * BitAnd(h / 2, p - 1) + h % 2
  {
    HalvesOfOdd(p);
  }

  lemma HalvesOfOdd(p: nat)
    requires 0 < p
    ensures (2 * p - 1) / 2 == p - 1 && (2 * p - 1) % 2 == 1
  {
  }

  lemma RemainderIs(h: nat, d: nat, q: nat, r: nat)
    requires 0 < d && r < d && h == d * q + r
    ensures h % d == r
  {
    var q', r' := h / d, h % d;
    assert h == d * q' + r';
    if q > q' { Scales(d, q, q' + 1); }
    if q < q' { Scales(d, q', q + 1); }
  }

  lemma Scales(d: nat, a: nat, b: nat)
    requires b <= a
    ensures d * b <= d * a && (0 < b ==> d * b == d * (b - 1) + d)
  {
  }

  // ---------------------------------------------------------------- nodes and chains

  /** Addresses of nodes; 0 is NULL. */
  type Ref = nat

  /** The node memory, one map to a field; an address is present from `malloc` to `free`. */
  datatype Memory = Memory(prev: map<Ref, Ref>, next: map<Ref, Ref>, key: map<Ref, Pointer>, value: map<Ref, Pointer>) {
    predicate Allocated(n: Ref) { n in prev && n in next && n in key && n in value }
  }

  /** The nodes of every bucket, last one first: the head is at the end. */
  type Chains = seq<seq<Ref>>

  /** Where a node is: its bucket and its position there. */
  type Homes = map<Ref, (nat, nat)>

  /** Positions; the facts about positions are used only where one of these two is mentioned. */
  predicate In(c: seq<Ref>, i: int) { 0 <= i < |c| }

  predicate At(chains: Chains, b: int, i: int) { 0 <= b < |chains| && 0 <= i < |chains[b]| }

  /** `homes` locates exactly the nodes of the chains; in particular no node is at two positions. */
  ghost predicate Located(chains: Chains, homes: Homes) {
    && (forall b: nat, i: nat {:trigger At(chains, b, i)} :: At(chains, b, i) ==>
          chains[b][i] in homes && homes[chains[b][i]] == (b, i))
    && (forall n {:trigger homes[n]} :: n in homes ==>
          homes[n].0 < |chains| && homes[n].1 < |chains[homes[n].0]| && chains[homes[n].0][homes[n].1] == n)
  }

  ghost predicate InMemory(m: Memory, homes: Homes) {
    forall n {:trigger homes[n]} :: n in homes ==> n != 0 && m.Allocated(n)
  }

  /** `head` starts the chain, `next` follows it, and `prev` inverts `next`; the head's `prev` is left open. */
  ghost predicate IsChain(m: Memory, c: seq<Ref>, head: Ref) {
    && head == (if c == [] then 0 else c[|c| - 1])
    && (forall i {:trigger In(c, i)} :: In(c, i) ==>
          && c[i] in m.next && m.next[c[i]] == (if i > 0 then c[i - 1] else 0)
          && (i + 1 < |c| ==> c[i] in m.prev && m.prev[c[i]] == c[i + 1]))
  }

  ghost predicate Linked(m: Memory, heads: seq<Ref>, chains: Chains, homes: Homes) {
    && |heads| == |chains|
    && Located(chains, homes)
    && InMemory(m, homes)
    && (forall b {:trigger IsChain(m, chains[b], heads[b])} :: 0 <= b < |chains| ==> IsChain(m, chains[b], heads[b]))
  }

  /** The memory after lines 75-77, or 114-116: `node` becomes the predecessor of `head`. */
  function Pushed(m: Memory, head: Ref, node: Ref): Memory {
    m.(next := m.next[node := head], prev := if head != 0 then m.prev[head := node] else m.prev)
  }

  lemma LocatedPush(chains: Chains, homes: Homes, index: nat, node: Ref)
    requires Located(chains, homes) && index < |chains| && node !in homes
    ensures Located(chains[index := chains[index] + [node]], homes[node := (index, |chains[index]|)])
  {
    var after, homes' := chains[index := chains[index] + [node]], homes[node := (index, |chains[index]|)];
    forall b: nat, i: nat | At(after, b, i) ensures after[b][i] in homes' && homes'[after[b][i]] == (b, i) {
      if !(b == index && i == |chains[index]|) {
        assert At(chains, b, i);
      }
    }
  }

  lemma LinkedPush(m: Memory, heads: seq<Ref>, chains: Chains, homes: Homes, index: nat, node: Ref)
    requires Linked(m, heads, chains, homes) && index < |chains|
    requires node != 0 && m.Allocated(node) && node !in homes
    ensures Linked(Pushed(m, heads[index], node), heads[index := node],
                   chains[index := chains[index] + [node]], homes[node := (index, |chains[index]|)])
  {
    LocatedPush(chains, homes, index, node);
    ChainPushed(m, heads, chains, homes, index, node);
    forall b | 0 <= b < |chains| && b != index ensures IsChain(Pushed(m, heads[index], node), chains[b], heads[b]) {
      ChainElsewhere(m, heads, chains, homes, index, node, b);
    }
  }

  lemma ChainPushed(m: Memory, heads: seq<Ref>, chains: Chains, homes: Homes, index: nat, node: Ref)
    requires Linked(m, heads, chains, homes) && index < |chains| && node !in homes
    ensures IsChain(Pushed(m, heads[index], node), chains[index] + [node], node)
  {
    var c, head, after := chains[index], heads[index], Pushed(m, heads[index], node);
    assert IsChain(m, c, head);
    var d := c + [node];
    forall i {:trigger In(d, i)} | In(d, i)
      ensures d[i] in after.next && after.next[d[i]] == (if i > 0 then d[i - 1] else 0)
      ensures i + 1 < |d| ==> d[i] in after.prev && after.prev[d[i]] == d[i + 1]
    {
      if i < |c| {
        assert In(c, i) && At(chains, index, i) && At(chains, index, |c| - 1);
      }
    }
  }

  lemma ChainElsewhere(m: Memory, heads: seq<Ref>, chains: Chains, homes: Homes, index: nat, node: Ref, b: nat)
    requires Linked(m, heads, chains, homes) && index < |chains| && node !in homes && b < |chains| && b != index
    ensures IsChain(Pushed(m, heads[index], node), chains[b], heads[b])
  {
    var c, head, after := chains[b], heads[index], Pushed(m, heads[index], node);
    assert IsChain(m, chains[index], head);
    assert IsChain(m, c, heads[b]);
    forall i | In(c, i) ensures c[i] != node && c[i] != head {
      assert At(chains, b, i);
      if chains[index] != [] { assert At(chains, index, |chains[index]| - 1); }
    }
  }

  /** The caller's equality is an equivalence, and equal keys have equal hashes. */
  ghost predicate Lawful(hash: Pointer -> nat, eq: (Pointer, Pointer) -> bool) {
    && (forall a {:trigger eq(a, a)} :: eq(a, a))
    && (forall a, b :: eq(a, b) ==> eq(b, a) && hash(a) == hash(b))
    && (forall a, b, c :: eq(a, b) && eq(b, c) ==> eq(a, c))
  }

  function Index(hash: Pointer -> nat, key: Pointer, length: nat): (i: nat)
    requires 0 < length
    ensures i < length
  {
    hash(key) % length
  }

  /** The linked nodes are those of the keys, each in the bucket its key selects. */
  ghost predicate Placed(hash: Pointer -> nat, m: Memory, homes: Homes, nodeOf: map<Pointer, Ref>, length: nat) {
    && 0 < length
    && (forall n {:trigger homes[n]} :: n in homes ==>
          n in m.key && m.key[n] in nodeOf && nodeOf[m.key[n]] == n && homes[n].0 == Index(hash, m.key[n], length))
    && (forall k {:trigger nodeOf[k]} :: k in nodeOf ==>
          nodeOf[k] in homes && nodeOf[k] in m.key && m.key[nodeOf[k]] == k)
  }

  /** The abstract value: each key with the value in its node. */
  ghost predicate Carries(m: Memory, nodeOf: map<Pointer, Ref>, contents: map<Pointer, Pointer>) {
    && (forall k :: k in nodeOf <==> k in contents)
    && (forall k {:trigger nodeOf[k]} :: k in nodeOf ==> nodeOf[k] in m.value && m.value[nodeOf[k]] == contents[k])
  }

  /** No two keys of the map are equal in the caller's sense. */
  ghost predicate NoTwins(eq: (Pointer, Pointer) -> bool, m: map<Pointer, Pointer>) {
    forall k, k' {:trigger eq(k, k')} :: k in m && k' in m && eq(k, k') ==> k == k'
  }

  /** Nothing in the map is equal to `key`. */
  ghost predicate Absent(eq: (Pointer, Pointer) -> bool, m: map<Pointer, Pointer>, key: Pointer) {
    forall k {:trigger k in m} :: k in m ==> !eq(k, key)
  }

  ghost predicate HeadsReset(m: Memory, heads: seq<Ref>) {
    forall b {:trigger heads[b]} :: 0 <= b < |heads| && heads[b] != 0 ==> heads[b] in m.prev && m.prev[heads[b]] == 0
  }

  /** What the table means: the map, the node of each key, and the nodes of each bucket. */
  datatype Shape = Shape(contents: map<Pointer, Pointer>, nodeOf: map<Pointer, Ref>, chains: Chains, homes: Homes)

  /** What the caller supplied. */
  datatype Config = Config(hash: Pointer -> nat, eq: (Pointer, Pointer) -> bool, loadFactor: real, repaired: bool)

  ghost predicate Inv(cfg: Config, m: Memory, heads: seq<Ref>, s: Shape) {
    && Lawful(cfg.hash, cfg.eq)
    && Linked(m, heads, s.chains, s.homes)
    && Placed(cfg.hash, m, s.homes, s.nodeOf, |heads|)
    && Carries(m, s.nodeOf, s.contents)
    && NoTwins(cfg.eq, s.contents)
    && (cfg.repaired ==> HeadsReset(m, heads))
  }

  /** Linkage depends on `next` and `prev` only. */
  lemma LinkedAgrees(m: Memory, m': Memory, heads: seq<Ref>, chains: Chains, homes: Homes)
    requires Linked(m, heads, chains, homes) && InMemory(m', homes)
    requires forall n {:trigger homes[n]} :: n in homes ==> m'.next[n] == m.next[n] && m'.prev[n] == m.prev[n]
    ensures Linked(m', heads, chains, homes)
  {
    forall b | 0 <= b < |heads| ensures IsChain(m', chains[b], heads[b]) {
      ChainAgrees(m, m', heads, chains, homes, b);
    }
  }

  lemma ChainAgrees(m: Memory, m': Memory, heads: seq<Ref>, chains: Chains, homes: Homes, b: nat)
    requires Linked(m, heads, chains, homes) && InMemory(m', homes) && b < |chains|
    requires forall n {:trigger homes[n]} :: n in homes && homes[n].0 == b ==>
      m'.next[n] == m.next[n] && m'.prev[n] == m.prev[n]
    ensures IsChain(m', chains[b], heads[b])
  {
    var c := chains[b];
    assert IsChain(m, c, heads[b]);
    forall i {:trigger In(c, i)} | In(c, i)
      ensures c[i] in homes && m'.next[c[i]] == m.next[c[i]] && m'.prev[c[i]] == m.prev[c[i]]
    {
      assert At(chains, b, i) && homes[c[i]] == (b, i);
    }
  }

  // ---------------------------------------------------------------- ht_put

  lemma ReplaceKeeps(cfg: Config, m: Memory, heads: seq<Ref>, s: Shape, entry: Ref, value: Pointer)
    requires Inv(cfg, m, heads, s) && entry in s.homes
    ensures entry in m.key && m.key[entry] in s.contents
    ensures Inv(cfg, m.(value := m.value[entry := value]), heads,
                s.(contents := s.contents[m.key[entry] := value]))
  {
    assert s.homes[entry].0 < |heads|;
    LinkedAgrees(m, m.(value := m.value[entry := value]), heads, s.chains, s.homes);
  }

  /** A fresh node, not yet linked (lines 109-113). */
  function WithNode(m: Memory, node: Ref, key: Pointer, value: Pointer): Memory {
    Memory(m.prev[node := 0], m.next[node := 0], m.key[node := key], m.value[node := value])
  }

  lemma FreshIsNoHome(m: Memory, homes: Homes, node: Ref)
    requires InMemory(m, homes) && !m.Allocated(node)
    ensures node !in homes
  {
    assert forall n {:trigger homes[n]} :: n in homes ==> m.Allocated(n);
    forall n | n in homes ensures n != node { assert homes[n] == homes[n]; }
  }

  lemma WithNodeLinked(m: Memory, heads: seq<Ref>, chains: Chains, homes: Homes, node: Ref, key: Pointer,
                       value: Pointer)
    requires Linked(m, heads, chains, homes) && node !in homes
    ensures Linked(WithNode(m, node, key, value), heads, chains, homes)
  {
    LinkedAgrees(m, WithNode(m, node, key, value), heads, chains, homes);
  }

  lemma HeadsResetPush(m: Memory, heads: seq<Ref>, chains: Chains, homes: Homes, index: nat, node: Ref)
    requires Linked(m, heads, chains, homes) && index < |heads| && node !in homes
    requires HeadsReset(m, heads) && node in m.prev && m.prev[node] == 0
    ensures HeadsReset(Pushed(m, heads[index], node), heads[index := node])
  {
    var heads' := heads[index := node];
    forall b | 0 <= b < |heads'| && heads'[b] != 0 && b != index ensures heads[b] != heads[index] {
      assert IsChain(m, chains[b], heads[b]) && IsChain(m, chains[index], heads[index]);
      assert At(chains, b, |chains[b]| - 1);
      if chains[index] != [] { assert At(chains, index, |chains[index]| - 1); }
    }
    if heads[index] != 0 && heads[index] == node {
      assert IsChain(m, chains[index], heads[index]) && At(chains, index, |chains[index]| - 1);
    }
  }

  lemma PlacedInsert(hash: Pointer -> nat, m: Memory, homes: Homes, nodeOf: map<Pointer, Ref>, length: nat,
                     node: Ref, key: Pointer, home: (nat, nat))
    requires Placed(hash, m, homes, nodeOf, length) && node !in homes && key !in nodeOf
    requires home.0 == Index(hash, key, length)
    ensures Placed(hash, m.(key := m.key[node := key]), homes[node := home], nodeOf[key := node], length)
  {
  }

  lemma CarriesInsert(m: Memory, nodeOf: map<Pointer, Ref>, contents: map<Pointer, Pointer>,
                      homes: Homes, node: Ref, key: Pointer, value: Pointer)
    requires Carries(m, nodeOf, contents) && node !in homes
    requires forall k {:trigger nodeOf[k]} :: k in nodeOf ==> nodeOf[k] in homes
    ensures Carries(m.(value := m.value[node := value]), nodeOf[key := node], contents[key := value])
  {
  }

  lemma NoTwinsInsert(cfg: Config, contents: map<Pointer, Pointer>, key: Pointer, value: Pointer)
    requires Lawful(cfg.hash, cfg.eq) && NoTwins(cfg.eq, contents) && Absent(cfg.eq, contents, key)
    ensures key !in contents && NoTwins(cfg.eq, contents[key := value])
  {
    assert cfg.eq(key, key);
    forall k, k' | k in contents[key := value] && k' in contents[key := value] && cfg.eq(k, k') ensures k == k' {
      assert cfg.eq(k', k);
    }
  }

  lemma InsertKeeps(cfg: Config, m: Memory, heads: seq<Ref>, s: Shape, key: Pointer, value: Pointer, node: Ref,
                    index: nat)
    requires Inv(cfg, m, heads, s) && Absent(cfg.eq, s.contents, key)
    requires node != 0 && !m.Allocated(node) && index == Index(cfg.hash, key, |heads|)
    ensures Inv(cfg, Pushed(WithNode(m, node, key, value), heads[index], node), heads[index := node],
                Shape(s.contents[key := value], s.nodeOf[key := node],
                      s.chains[index := s.chains[index] + [node]], s.homes[node := (index, |s.chains[index]|)]))
  {
    var m1 := WithNode(m, node, key, value);
    FreshIsNoHome(m, s.homes, node);
    WithNodeLinked(m, heads, s.chains, s.homes, node, key, value);
    LinkedPush(m1, heads, s.chains, s.homes, index, node);
    NoTwinsInsert(cfg, s.contents, key, value);
    PlacedInsert(cfg.hash, m, s.homes, s.nodeOf, |heads|, node, key, (index, |s.chains[index]|));
    CarriesInsert(m, s.nodeOf, s.contents, s.homes, node, key, value);
    if cfg.repaired { HeadsResetPush(m1, heads, s.chains, s.homes, index, node); }
  }

  // ---------------------------------------------------------------- expandHashmap

  /** The nodes of the old table that have already been moved when bucket `i` has `left` nodes to go. */
  predicate IsMoved(home: (nat, nat), i: nat, left: nat) {
    home.0 < i || (home.0 == i && home.1 >= left)
  }

  /** The nodes of the new table are moved ones, each in the bucket its key selects there. */
  ghost predicate Rehomed(hash: Pointer -> nat, key: map<Ref, Pointer>, old': Homes, homes: Homes, length: nat,
                          i: nat, left: nat) {
    0 < length && forall n {:trigger homes[n]} :: n in homes ==>
      (n in old' && IsMoved(old'[n], i, left) && n in key && homes[n].0 == Index(hash, key[n], length))
  }

  /** Every moved node is in the new table; the others still have their old successor. */
  ghost predicate Waiting(m0: Memory, m: Memory, old': Homes, homes: Homes, i: nat, left: nat) {
    forall n {:trigger old'[n]} :: n in old' ==>
      if IsMoved(old'[n], i, left) then n in homes
      else n !in homes && n in m.next && n in m0.next && m.next[n] == m0.next[n]
  }

  /** The state of the two nested loops of `expandHashmap`. */
  ghost predicate Moving(cfg: Config, m0: Memory, s: Shape, m: Memory, heads: seq<Ref>, chains: Chains, homes: Homes,
                         i: nat, left: nat)
  {
    && Linked(m, heads, chains, homes)
    && InMemory(m, s.homes)
    && m.key == m0.key && m.value == m0.value
    && Rehomed(cfg.hash, m.key, s.homes, homes, |heads|, i, left)
    && Waiting(m0, m, s.homes, homes, i, left)
    && (cfg.repaired ==> HeadsReset(m, heads))
  }

  /** What one turn does to the node under the cursor; the repair clears its old predecessor first. */
  function Detached(cfg: Config, m: Memory, node: Ref): Memory {
    if cfg.repaired then m.(prev := m.prev[node := 0]) else m
  }

  lemma DetachLinked(cfg: Config, m: Memory, heads: seq<Ref>, chains: Chains, homes: Homes, node: Ref)
    requires Linked(m, heads, chains, homes) && node !in homes
    ensures Linked(Detached(cfg, m, node), heads, chains, homes)
    ensures HeadsReset(m, heads) ==> HeadsReset(Detached(cfg, m, node), heads)
  {
    LinkedAgrees(m, Detached(cfg, m, node), heads, chains, homes);
  }

  lemma RehomedOne(hash: Pointer -> nat, key: map<Ref, Pointer>, old': Homes, homes: Homes, length: nat,
                   i: nat, left: nat, node: Ref, home: (nat, nat))
    requires Rehomed(hash, key, old', homes, length, i, left) && 0 < left
    requires node in old' && old'[node] == (i, left - 1) && node in key && home.0 == Index(hash, key[node], length)
    ensures Rehomed(hash, key, old', homes[node := home], length, i, left - 1)
  {
  }

  lemma WaitingOne(m0: Memory, m: Memory, m': Memory, chains0: Chains, old': Homes, homes: Homes,
                   i: nat, left: nat, node: Ref, home: (nat, nat))
    requires Waiting(m0, m, old', homes, i, left) && Located(chains0, old') && 0 < left
    requires node in old' && old'[node] == (i, left - 1)
    requires forall n :: n in m.next && n != node ==> n in m'.next && m'.next[n] == m.next[n]
    ensures Waiting(m0, m', old', homes[node := home], i, left - 1)
  {
    forall n | n in old' && old'[n] == (i, left - 1) ensures n == node {
      assert chains0[i][left - 1] == n;
    }
  }

  lemma MoveOne(cfg: Config, m0: Memory, s: Shape, m: Memory, heads: seq<Ref>, chains: Chains, homes: Homes,
                i: nat, left: nat, index: nat)
    requires Located(s.chains, s.homes) && Moving(cfg, m0, s, m, heads, chains, homes, i, left)
    requires i < |s.chains| && 0 < left <= |s.chains[i]|
    requires s.chains[i][left - 1] in m.key && index == Index(cfg.hash, m.key[s.chains[i][left - 1]], |heads|)
    ensures var node := s.chains[i][left - 1];
      Moving(cfg, m0, s, Pushed(Detached(cfg, m, node), heads[index], node), heads[index := node],
             chains[index := chains[index] + [node]], homes[node := (index, |chains[index]|)], i, left - 1)
  {
    var node := s.chains[i][left - 1];
    assert At(s.chains, i, left - 1) && s.homes[node] == (i, left - 1);
    DetachLinked(cfg, m, heads, chains, homes, node);
    var m1, home := Detached(cfg, m, node), (index, |chains[index]|);
    LinkedPush(m1, heads, chains, homes, index, node);
    RehomedOne(cfg.hash, m.key, s.homes, homes, |heads|, i, left, node, home);
    WaitingOne(m0, m, Pushed(m1, heads[index], node), s.chains, s.homes, homes, i, left, node, home);
    if cfg.repaired { HeadsResetPush(m1, heads, chains, homes, index, node); }
  }

  lemma MoveNextBucket(cfg: Config, m0: Memory, s: Shape, m: Memory, heads: seq<Ref>, chains: Chains, homes: Homes,
                       i: nat)
    requires Moving(cfg, m0, s, m, heads, chains, homes, i, 0) && i < |s.chains| && Located(s.chains, s.homes)
    ensures Moving(cfg, m0, s, m, heads, chains, homes, i + 1, if i + 1 < |s.chains| then |s.chains[i + 1]| else 0)
  {
  }

  /** When all buckets are done, the table is the old map in the new shape. */
  lemma MoveDone(cfg: Config, m0: Memory, heads0: seq<Ref>, s: Shape, m: Memory, heads: seq<Ref>, chains: Chains,
                 homes: Homes)
    requires Inv(cfg, m0, heads0, s) && Moving(cfg, m0, s, m, heads, chains, homes, |s.chains|, 0)
    ensures Inv(cfg, m, heads, s.(chains := chains, homes := homes)) && homes.Keys == s.homes.Keys
  {
    forall n ensures n in homes <==> n in s.homes {
      if n in s.homes { assert IsMoved(s.homes[n], |s.chains|, 0); }
      if n in homes { assert homes[n].0 < |heads|; }
    }
  }

  // ---------------------------------------------------------------- stale predecessors

  /** As written a node keeps its `prev` until another one is pushed in front of it. */
  predicate KeepsPrev(m0: Memory, m: Memory, heads: seq<Ref>, homes: Homes, n: Ref) {
    n in m0.prev && n in m.prev && (n in homes ==> homes[n].0 < |heads| && heads[homes[n].0] == n) ==>
      m.prev[n] == m0.prev[n]
  }

  ghost predicate PrevKept(m0: Memory, m: Memory, heads: seq<Ref>, homes: Homes) {
    forall n {:trigger KeepsPrev(m0, m, heads, homes, n)} :: KeepsPrev(m0, m, heads, homes, n)
  }

  /** The head of a new bucket is the last one moved there, all from one old bucket. */
  predicate BehindHead(old': Homes, heads: seq<Ref>, homes: Homes, n: Ref)
    requires n in homes
  {
    && n in old' && homes[n].0 < |heads|
    && var h := heads[homes[n].0];
       h in old' && old'[h].0 == old'[n].0 && old'[h].1 <= old'[n].1
  }

  ghost predicate HeadsLatest(old': Homes, heads: seq<Ref>, homes: Homes) {
    forall n {:trigger BehindHead(old', heads, homes, n)} :: n in homes ==> BehindHead(old', heads, homes, n)
  }

  /** The remainder of the remainder, for a divisor twice as large. */
  lemma HalfOf(h: nat, n: nat, d: nat)
    requires 0 < n && d == 2 * n
    ensures h % n == (h % d) % n
  {
    var q, r := DivisionOf(h, d);
    var q', r' := DivisionOf(r, n);
    HalfRemainder(h, n, d, q, r, q', r');
  }

  lemma DivisionOf(x: nat, d: nat) returns (q: nat, r: nat)
    requires 0 < d
    ensures x == d * q + r && r == x % d && r < d
  {
    q, r := x / d, x % d;
  }

  lemma HalfRemainder(h: nat, n: nat, d: nat, q: nat, r: nat, q': nat, r': nat)
    requires 0 < n && d == 2 * n && h == d * q + r && r == n * q' + r' && r' < n
    ensures h % n == r'
  {
    Regroup(n, d, q, q');
    RemainderIs(h, n, 2 * q + q', r');
  }

  lemma Regroup(n: nat, d: nat, q: nat, q': nat)
    requires d == 2 * n
    ensures d * q + n * q' == n * (2 * q + q')
  {
  }

  /** Where the nodes moved to one new bucket come from. */
  lemma FromOneBucket(cfg: Config, m0: Memory, length: nat, s: Shape, homes: Homes, i: nat, left: nat, n: Ref,
                      node: Ref)
    requires Placed(cfg.hash, m0, s.homes, s.nodeOf, length) && 0 < left
    requires Rehomed(cfg.hash, m0.key, s.homes, homes, 2 * length, i, left)
    requires n in homes && node in s.homes && s.homes[node] == (i, left - 1) && node in m0.key
    requires homes[n].0 == Index(cfg.hash, m0.key[node], 2 * length)
    ensures n in s.homes && s.homes[n].0 == i && s.homes[n].1 >= left
  {
    HalfOf(cfg.hash(m0.key[n]), length, 2 * length);
    HalfOf(cfg.hash(m0.key[node]), length, 2 * length);
  }

  lemma LatestOne(cfg: Config, m0: Memory, length: nat, s: Shape, heads: seq<Ref>, homes: Homes,
                  i: nat, left: nat, node: Ref, home: (nat, nat))
    requires Placed(cfg.hash, m0, s.homes, s.nodeOf, length) && 0 < left
    requires Rehomed(cfg.hash, m0.key, s.homes, homes, 2 * length, i, left) && HeadsLatest(s.homes, heads, homes)
    requires node in s.homes && s.homes[node] == (i, left - 1) && node in m0.key && |heads| == 2 * length
    requires home.0 == Index(cfg.hash, m0.key[node], 2 * length)
    ensures HeadsLatest(s.homes, heads[home.0 := node], homes[node := home])
  {
    var heads', homes' := heads[home.0 := node], homes[node := home];
    forall n | n in homes' ensures BehindHead(s.homes, heads', homes', n) {
      if n != node {
        assert BehindHead(s.homes, heads, homes, n);
        if homes[n].0 == home.0 { FromOneBucket(cfg, m0, length, s, homes, i, left, n, node); }
      }
    }
  }

  lemma KeptOne(m0: Memory, m: Memory, heads: seq<Ref>, chains: Chains, homes: Homes, node: Ref, home: (nat, nat))
    requires Linked(m, heads, chains, homes) && PrevKept(m0, m, heads, homes)
    requires node !in homes && home.0 < |heads|
    ensures PrevKept(m0, Pushed(m, heads[home.0], node), heads[home.0 := node], homes[node := home])
  {
    var m', heads', homes' := Pushed(m, heads[home.0], node), heads[home.0 := node], homes[node := home];
    HeadOf(m, heads, chains, homes, home.0);
    forall n ensures KeepsPrev(m0, m', heads', homes', n) {
      assert KeepsPrev(m0, m, heads, homes, n);
    }
  }

  /** The head of a bucket is none or one of its nodes. */
  lemma HeadOf(m: Memory, heads: seq<Ref>, chains: Chains, homes: Homes, index: nat)
    requires Linked(m, heads, chains, homes) && index < |heads|
    ensures heads[index] != 0 ==> heads[index] in homes && homes[heads[index]].0 == index
  {
    assert IsChain(m, chains[index], heads[index]);
    if chains[index] != [] { assert At(chains, index, |chains[index]| - 1); }
  }

  /** After the expansion `prev` is NULL exactly at the heads if and only if no two entries shared a bucket. */
  lemma StaleExact(cfg: Config, m0: Memory, heads0: seq<Ref>, s: Shape, m: Memory, heads: seq<Ref>, chains: Chains,
                   homes: Homes)
    requires Inv(cfg, m0, heads0, s) && HeadsReset(m0, heads0)
    requires Linked(m, heads, chains, homes) && homes.Keys == s.homes.Keys
    requires PrevKept(m0, m, heads, homes) && HeadsLatest(s.homes, heads, homes)
    ensures HeadsReset(m, heads) <==> forall b :: 0 <= b < |s.chains| ==> |s.chains[b]| <= 1
  {
    if forall b :: 0 <= b < |s.chains| ==> |s.chains[b]| <= 1 {
      forall j | 0 <= j < |heads| && heads[j] != 0 ensures heads[j] in m.prev && m.prev[heads[j]] == 0 {
        HeadOf(m, heads, chains, homes, j);
        OnlyOneIsReset(m0, heads0, s, heads[j]);
        assert KeepsPrev(m0, m, heads, homes, heads[j]);
      }
    } else {
      var b: nat :| b < |s.chains| && |s.chains[b]| > 1;
      TailIsHead(m0, heads0, s, heads, homes, b);
      var n := s.chains[b][0];
      assert KeepsPrev(m0, m, heads, homes, n);
      HeadAllocated(m, heads, chains, homes, n);
    }
  }

  lemma HeadAllocated(m: Memory, heads: seq<Ref>, chains: Chains, homes: Homes, n: Ref)
    requires Linked(m, heads, chains, homes) && n in homes
    ensures n != 0 && n in m.prev && homes[n].0 < |heads|
  {
    assert homes[n] == homes[n];
  }

  lemma OnlyOneIsReset(m0: Memory, heads0: seq<Ref>, s: Shape, n: Ref)
    requires Linked(m0, heads0, s.chains, s.homes) && HeadsReset(m0, heads0) && n in s.homes
    requires s.homes[n].0 < |s.chains| ==> |s.chains[s.homes[n].0]| <= 1
    ensures n in m0.prev && m0.prev[n] == 0
  {
    var b := s.homes[n].0;
    assert s.chains[b][s.homes[n].1] == n;
    assert IsChain(m0, s.chains[b], heads0[b]);
    assert heads0[b] == n;
  }

  /** The last node of a chain becomes the head of its new bucket, with another node as its `prev`. */
  lemma TailIsHead(m0: Memory, heads0: seq<Ref>, s: Shape, heads: seq<Ref>, homes: Homes, b: nat)
    requires Linked(m0, heads0, s.chains, s.homes) && homes.Keys == s.homes.Keys
    requires HeadsLatest(s.homes, heads, homes) && b < |s.chains| && |s.chains[b]| > 1
    ensures var n := s.chains[b][0];
      n in homes && homes[n].0 < |heads| && heads[homes[n].0] == n && n in m0.prev && m0.prev[n] != 0
  {
    var c := s.chains[b];
    assert IsChain(m0, c, heads0[b]);
    assert In(c, 0) && At(s.chains, b, 0) && At(s.chains, b, 1);
    var n := c[0];
    assert s.homes[n] == (b, 0) && s.homes[c[1]] == (b, 1);
    assert BehindHead(s.homes, heads, homes, n);
    var h := heads[homes[n].0];
    assert s.homes[h] == (b, 0);
  }

  // ---------------------------------------------------------------- which entry is first after doubling

  /** Of the nodes that go to the same new bucket `n` was the last in its old one. */
  ghost predicate WasLast(hash: Pointer -> nat, m: Memory, homes: Homes, length: nat, n: Ref) {
    && 0 < length && n in homes && n in m.key
    && (forall n' {:trigger homes[n']} ::
          n' in homes && n' in m.key && Index(hash, m.key[n'], length) == Index(hash, m.key[n], length) ==>
            homes[n].1 <= homes[n'].1)
  }

  lemma HeadWasLast(cfg: Config, m0: Memory, length: nat, s: Shape, m: Memory, heads: seq<Ref>, chains: Chains,
                    homes: Homes, n: Ref)
    requires Placed(cfg.hash, m0, s.homes, s.nodeOf, length) && Located(s.chains, s.homes)
    requires Linked(m, heads, chains, homes) && Placed(cfg.hash, m, homes, s.nodeOf, 2 * length)
    requires m.key == m0.key && homes.Keys == s.homes.Keys && HeadsLatest(s.homes, heads, homes) && n in homes
    ensures homes[n].0 < |heads|
    ensures heads[homes[n].0] == n <==> WasLast(cfg.hash, m0, s.homes, 2 * length, n)
  {
    assert homes[n].0 == Index(cfg.hash, m.key[n], 2 * length);
    assert BehindHead(s.homes, heads, homes, n);
    var h := heads[homes[n].0];
    HeadOf(m, heads, chains, homes, homes[n].0);
    if h == n {
      forall n' | n' in homes && Index(cfg.hash, m.key[n'], 2 * length) == homes[n].0
        ensures s.homes[n].1 <= s.homes[n'].1
      {
        assert BehindHead(s.homes, heads, homes, n');
      }
    }
    if WasLast(cfg.hash, m0, s.homes, 2 * length, n) { SameHome(s.chains, s.homes, h, n); }
  }

  lemma SameHome(chains: Chains, homes: Homes, a: Ref, b: Ref)
    requires Located(chains, homes) && a in homes && b in homes && homes[a] == homes[b]
    ensures a == b
  {
    assert chains[homes[a].0][homes[a].1] == a;
  }

  /** The smallest case: two entries of one bucket go to two, and the second keeps the first as its `prev`. */
  lemma SecondEntryIsStale(cfg: Config)
    requires !cfg.repaired
    ensures var m0 := Memory(map[1 := 2, 2 := 0], map[1 := 0, 2 := 1], map[1 := 7, 2 := 6], map[1 := 0, 2 := 0]);
      var m1 := Pushed(Detached(cfg, m0, 2), 0, 2);
      var m2 := Pushed(Detached(cfg, m1, 1), 0, 1);
      HeadsReset(m0, [2]) && m2.prev[1] == 2 && !HeadsReset(m2, [2, 1])
  {
    var m0 := Memory(map[1 := 2, 2 := 0], map[1 := 0, 2 := 1], map[1 := 7, 2 := 6], map[1 := 0, 2 := 0]);
    var m1 := Pushed(Detached(cfg, m0, 2), 0, 2);
    var m2 := Pushed(Detached(cfg, m1, 1), 0, 1);
    assert [2, 1][1] == 1 && m2.prev[1] == 2;
  }

  // ---------------------------------------------------------------- ht_delete

  /** `free`: the address leaves the memory. */
  function Freed(m: Memory, e: Ref): Memory {
    Memory(m.prev - {e}, m.next - {e}, m.key - {e}, m.value - {e})
  }

  /** Lines 132-135, and 137. */
  function Unlinked(m: Memory, e: Ref): Memory
    requires m.Allocated(e)
  {
    var m1 := if m.prev[e] != 0 then m.(next := m.next[m.prev[e] := m.next[e]]) else m;
    var m2 := if m.next[e] != 0 then m1.(prev := m1.prev[m.next[e] := m.prev[e]]) else m1;
    Freed(m2, e)
  }

  /** The bucket heads afterwards: as written they are never touched. */
  function HeadsAfter(cfg: Config, m: Memory, heads: seq<Ref>, index: nat, e: Ref): seq<Ref>
    requires m.Allocated(e) && index < |heads|
  {
    if cfg.repaired && m.prev[e] == 0 then heads[index := m.next[e]] else heads
  }

  function Without(c: seq<Ref>, p: nat): seq<Ref>
    requires p < |c|
  {
    c[..p] + c[p + 1..]
  }

  /** Behind position `p` of bucket `b` everything closes up by one. */
  function ClosedUp(home: (nat, nat), b: nat, p: nat): (nat, nat) {
    if home.0 == b && home.1 > p then (b, home.1 - 1) else home
  }

  function HomesWithout(homes: Homes, e: Ref, b: nat, p: nat): Homes {
    map n | n in homes && n != e :: ClosedUp(homes[n], b, p)
  }

  lemma LocatedUnlink(chains: Chains, homes: Homes, e: Ref, b: nat, p: nat)
    requires Located(chains, homes) && e in homes && homes[e] == (b, p)
    ensures b < |chains| && p < |chains[b]| && chains[b][p] == e
    ensures Located(chains[b := Without(chains[b], p)], HomesWithout(homes, e, b, p))
  {
    var after, homes' := chains[b := Without(chains[b], p)], HomesWithout(homes, e, b, p);
    forall a: nat, i: nat | At(after, a, i) ensures after[a][i] in homes' && homes'[after[a][i]] == (a, i) {
      var j := if a == b && i >= p then i + 1 else i;
      assert At(chains, a, j) && after[a][i] == chains[a][j];
      assert homes[chains[a][j]] == (a, j);
    }
    forall n | n in homes' ensures homes'[n].0 < |after| && homes'[n].1 < |after[homes'[n].0]|
        && after[homes'[n].0][homes'[n].1] == n {
      UnlinkedHome(chains, homes, e, b, p, n);
    }
  }

  lemma UnlinkedHome(chains: Chains, homes: Homes, e: Ref, b: nat, p: nat, n: Ref)
    requires Located(chains, homes) && e in homes && homes[e] == (b, p) && n in homes && n != e
    requires b < |chains| && p < |chains[b]|
    ensures var (a, i) := ClosedUp(homes[n], b, p);
      var after := chains[b := Without(chains[b], p)];
      a < |after| && i < |after[a]| && after[a][i] == n
  {
    assert chains[homes[n].0][homes[n].1] == n && chains[b][p] == e;
  }

  /** The neighbours of a linked node, when its `prev` is that of an inner node or of a reset head. */
  ghost predicate Neighbours(m: Memory, c: seq<Ref>, p: nat, e: Ref) {
    && p < |c| && c[p] == e && m.Allocated(e)
    && m.next[e] == (if p > 0 then c[p - 1] else 0)
    && m.prev[e] == (if p + 1 < |c| then c[p + 1] else 0)
  }

  lemma ChainUnlinked(cfg: Config, m: Memory, heads: seq<Ref>, chains: Chains, homes: Homes, e: Ref, b: nat, p: nat)
    requires Linked(m, heads, chains, homes) && e in homes && homes[e] == (b, p)
    requires b < |chains| && Neighbours(m, chains[b], p, e) && (p + 1 < |chains[b]| || cfg.repaired)
    ensures IsChain(Unlinked(m, e), Without(chains[b], p), HeadsAfter(cfg, m, heads, b, e)[b])
  {
    var c, d, after := chains[b], Without(chains[b], p), Unlinked(m, e);
    assert IsChain(m, c, heads[b]);
    forall i {:trigger In(d, i)} | In(d, i)
      ensures d[i] in after.next && after.next[d[i]] == (if i > 0 then d[i - 1] else 0)
      ensures i + 1 < |d| ==> d[i] in after.prev && after.prev[d[i]] == d[i + 1]
    {
      var j := if i >= p then i + 1 else i;
      assert In(c, j) && At(chains, b, j) && At(chains, b, p);
      if p > 0 { assert At(chains, b, p - 1); }
      if p + 1 < |c| { assert At(chains, b, p + 1) && c[p + 1] != 0; }
    }
    if p + 1 < |c| { assert At(chains, b, p + 1); }
  }

  lemma ChainElsewhereUnlinked(m: Memory, heads: seq<Ref>, chains: Chains, homes: Homes, e: Ref, b: nat, p: nat, a: nat)
    requires Linked(m, heads, chains, homes) && e in homes && homes[e] == (b, p) && a < |chains|
    requires b < |chains| && a != b && Neighbours(m, chains[b], p, e)
    ensures IsChain(Unlinked(m, e), chains[a], heads[a])
  {
    var c, d := chains[b], chains[a];
    assert IsChain(m, d, heads[a]);
    forall i {:trigger In(d, i)} | In(d, i)
      ensures d[i] != e && d[i] != m.prev[e] && d[i] != m.next[e] && d[i] in homes
    {
      assert At(chains, a, i) && At(chains, b, p);
      if p > 0 { assert At(chains, b, p - 1); }
      if p + 1 < |c| { assert At(chains, b, p + 1); }
    }
  }

  lemma LinkedUnlink(cfg: Config, m: Memory, heads: seq<Ref>, chains: Chains, homes: Homes, e: Ref, b: nat, p: nat)
    requires Linked(m, heads, chains, homes) && e in homes && homes[e] == (b, p)
    requires b < |chains| && Neighbours(m, chains[b], p, e) && (p + 1 < |chains[b]| || cfg.repaired)
    ensures Linked(Unlinked(m, e), HeadsAfter(cfg, m, heads, b, e),
                   chains[b := Without(chains[b], p)], HomesWithout(homes, e, b, p))
  {
    LocatedUnlink(chains, homes, e, b, p);
    ChainUnlinked(cfg, m, heads, chains, homes, e, b, p);
    var heads', chains' := HeadsAfter(cfg, m, heads, b, e), chains[b := Without(chains[b], p)];
    forall a | 0 <= a < |chains| ensures IsChain(Unlinked(m, e), chains'[a], heads'[a]) {
      if a != b { ChainElsewhereUnlinked(m, heads, chains, homes, e, b, p, a); }
    }
  }

  lemma HeadsResetUnlink(cfg: Config, m: Memory, heads: seq<Ref>, chains: Chains, homes: Homes, e: Ref, b: nat, p: nat)
    requires Linked(m, heads, chains, homes) && e in homes && homes[e] == (b, p)
    requires b < |chains| && Neighbours(m, chains[b], p, e) && cfg.repaired && HeadsReset(m, heads)
    ensures HeadsReset(Unlinked(m, e), HeadsAfter(cfg, m, heads, b, e))
  {
    var c, heads' := chains[b], HeadsAfter(cfg, m, heads, b, e);
    assert IsChain(m, c, heads[b]) && At(chains, b, p);
    if p > 0 { assert At(chains, b, p - 1); }
    if p + 1 < |c| { assert At(chains, b, |c| - 1); }
    forall a | 0 <= a < |heads'| && heads'[a] != 0
      ensures heads'[a] in Unlinked(m, e).prev && Unlinked(m, e).prev[heads'[a]] == 0
    {
      if a != b {
        assert IsChain(m, chains[a], heads[a]) && At(chains, a, |chains[a]| - 1);
      }
    }
  }

  /** The shape without the entry of key `key`. */
  function ShapeWithout(s: Shape, key: Pointer, e: Ref, b: nat, p: nat): Shape
    requires b < |s.chains| && p < |s.chains[b]|
  {
    Shape(s.contents - {key}, s.nodeOf - {key}, s.chains[b := Without(s.chains[b], p)], HomesWithout(s.homes, e, b, p))
  }

  lemma PlacedUnlink(hash: Pointer -> nat, m: Memory, homes: Homes, nodeOf: map<Pointer, Ref>, length: nat,
                     e: Ref, b: nat, p: nat)
    requires Placed(hash, m, homes, nodeOf, length) && e in homes && homes[e] == (b, p)
    ensures Placed(hash, m.(key := m.key - {e}), HomesWithout(homes, e, b, p), nodeOf - {m.key[e]}, length)
  {
    var homes', nodeOf' := HomesWithout(homes, e, b, p), nodeOf - {m.key[e]};
    forall n | n in homes'
      ensures n in m.key - {e} && m.key[n] in nodeOf' && nodeOf'[m.key[n]] == n
      ensures homes'[n].0 == Index(hash, m.key[n], length)
    {
      assert homes[n].0 == Index(hash, m.key[n], length);
    }
  }

  lemma CarriesUnlink(m: Memory, nodeOf: map<Pointer, Ref>, contents: map<Pointer, Pointer>, key: Pointer)
    requires Carries(m, nodeOf, contents) && key in nodeOf
    requires forall k {:trigger nodeOf[k]} :: k in nodeOf && nodeOf[k] == nodeOf[key] ==> k == key
    ensures Carries(m.(value := m.value - {nodeOf[key]}), nodeOf - {key}, contents - {key})
  {
  }

  lemma NoTwinsUnlink(eq: (Pointer, Pointer) -> bool, contents: map<Pointer, Pointer>, key: Pointer)
    requires NoTwins(eq, contents)
    ensures NoTwins(eq, contents - {key})
  {
  }

  /** The invariant does not look at `key` and `value` but through these predicates. */
  lemma PlacedAgrees(hash: Pointer -> nat, m: Memory, m': Memory, homes: Homes, nodeOf: map<Pointer, Ref>, length: nat)
    requires Placed(hash, m, homes, nodeOf, length) && m'.key == m.key
    ensures Placed(hash, m', homes, nodeOf, length)
  {
  }

  lemma CarriesAgrees(m: Memory, m': Memory, nodeOf: map<Pointer, Ref>, contents: map<Pointer, Pointer>)
    requires Carries(m, nodeOf, contents) && m'.value == m.value
    ensures Carries(m', nodeOf, contents)
  {
  }

  lemma UnlinkedFields(m: Memory, e: Ref)
    requires m.Allocated(e)
    ensures Unlinked(m, e).key == m.key - {e} && Unlinked(m, e).value == m.value - {e}
  {
  }

  /** What is known of a linked node that is about to be deleted. */
  lemma NodeAt(cfg: Config, m: Memory, heads: seq<Ref>, s: Shape, e: Ref, b: nat, p: nat)
    requires Inv(cfg, m, heads, s) && e in s.homes && s.homes[e] == (b, p)
    requires b < |s.chains| && p < |s.chains[b]| && (p + 1 < |s.chains[b]| || cfg.repaired)
    ensures Neighbours(m, s.chains[b], p, e) && m.key[e] in s.nodeOf && s.nodeOf[m.key[e]] == e
  {
    assert IsChain(m, s.chains[b], heads[b]) && In(s.chains[b], p) && s.chains[b][p] == e;
  }

  lemma DeleteKeeps(cfg: Config, m: Memory, heads: seq<Ref>, s: Shape, e: Ref, b: nat, p: nat)
    requires Inv(cfg, m, heads, s) && e in s.homes && s.homes[e] == (b, p)
    requires b < |s.chains| && p < |s.chains[b]| && (p + 1 < |s.chains[b]| || cfg.repaired)
    ensures e in m.key && m.Allocated(e)
    ensures Inv(cfg, Unlinked(m, e), HeadsAfter(cfg, m, heads, b, e), ShapeWithout(s, m.key[e], e, b, p))
  {
    NodeAt(cfg, m, heads, s, e, b, p);
    UnlinkedFields(m, e);
    LinkedUnlink(cfg, m, heads, s.chains, s.homes, e, b, p);
    PlacedUnlink(cfg.hash, m, s.homes, s.nodeOf, |heads|, e, b, p);
    PlacedAgrees(cfg.hash, m.(key := m.key - {e}), Unlinked(m, e), HomesWithout(s.homes, e, b, p),
      s.nodeOf - {m.key[e]}, |heads|);
    CarriesUnlink(m, s.nodeOf, s.contents, m.key[e]);
    CarriesAgrees(m.(value := m.value - {e}), Unlinked(m, e), s.nodeOf - {m.key[e]}, s.contents - {m.key[e]});
    NoTwinsUnlink(cfg.eq, s.contents, m.key[e]);
    if cfg.repaired { HeadsResetUnlink(cfg, m, heads, s.chains, s.homes, e, b, p); }
  }

  // ---------------------------------------------------------------- the table

  lemma DoublePow2(n: nat)
    requires IsPow2(n)
    ensures IsPow2(2 * n)
  {
    var k: nat :| Pow2(k) == n;
    assert Pow2(k + 1) == 2 * n;
  }

  lemma EmptyTable(cfg: Config, length: nat)
    requires Lawful(cfg.hash, cfg.eq) && 0 < length
    ensures Inv(cfg, Memory(map[], map[], map[], map[]), seq(length, _ => 0),
      Shape(map[], map[], seq(length, _ => []), map[]))
  {
  }

  lemma FirstNode(cfg: Config, m: Memory, heads: seq<Ref>, s: Shape, index: nat)
    requires Inv(cfg, m, heads, s) && index < |heads|
    ensures var c := s.chains[index]; heads[index] == if c == [] then 0 else c[|c| - 1]
  {
    assert IsChain(m, s.chains[index], heads[index]);
  }

  /** Every node of a chain is a linked node, and its `next` leads to the one below it. */
  ghost predicate Walkable(m: Memory, c: seq<Ref>, homes: Homes) {
    forall i {:trigger In(c, i)} :: In(c, i) ==>
      c[i] != 0 && c[i] in homes && m.Allocated(c[i]) && m.next[c[i]] == (if i > 0 then c[i - 1] else 0)
  }

  lemma ChainIsWalkable(cfg: Config, m: Memory, heads: seq<Ref>, s: Shape, index: nat)
    requires Inv(cfg, m, heads, s) && index < |heads|
    ensures Walkable(m, s.chains[index], s.homes)
  {
    var c := s.chains[index];
    assert IsChain(m, c, heads[index]);
    forall i {:trigger In(c, i)} | In(c, i) ensures c[i] in s.homes {
      assert At(s.chains, index, i);
    }
  }

  /** The walk has passed no key equal to `key`. */
  ghost predicate NoneEqual(cfg: Config, m: Memory, c: seq<Ref>, left: nat, key: Pointer) {
    forall j {:trigger In(c, j)} :: In(c, j) && left <= j ==> c[j] in m.key && !cfg.eq(m.key[c[j]], key)
  }

  lemma FoundIsPresent(cfg: Config, m: Memory, heads: seq<Ref>, s: Shape, e: Ref, key: Pointer)
    requires Inv(cfg, m, heads, s) && e in s.homes && e in m.key && cfg.eq(m.key[e], key)
    ensures m.key[e] in s.contents && s.nodeOf[m.key[e]] == e && e in m.value && s.contents[m.key[e]] == m.value[e]
    ensures !Absent(cfg.eq, s.contents, key)
  {
    assert s.homes[e].0 < |heads|;
    assert s.nodeOf[m.key[e]] == e;
  }

  lemma NotFoundIsAbsent(cfg: Config, m: Memory, heads: seq<Ref>, s: Shape, key: Pointer)
    requires Inv(cfg, m, heads, s)
    requires NoneEqual(cfg, m, s.chains[Index(cfg.hash, key, |heads|)], 0, key)
    ensures Absent(cfg.eq, s.contents, key)
  {
    forall k | k in s.contents ensures !cfg.eq(k, key) {
      var n := s.nodeOf[k];
      assert s.homes[n].0 == Index(cfg.hash, k, |heads|);
      assert In(s.chains[s.homes[n].0], s.homes[n].1) && s.chains[s.homes[n].0][s.homes[n].1] == n;
    }
  }

  /** Lines 150-156: the walk shared by all lookups, from the head of the bucket. */
  method Walk(cfg: Config, m: Memory, head: Ref, key: Pointer, ghost c: seq<Ref>, ghost homes: Homes)
    returns (entry: Ref)
    requires Walkable(m, c, homes) && head == (if c == [] then 0 else c[|c| - 1])
    ensures entry != 0 ==> entry in homes && entry in m.key && cfg.eq(m.key[entry], key)
    ensures entry == 0 ==> NoneEqual(cfg, m, c, 0, key)
  {
    ghost var left: nat := |c|;
    entry := head;
    while entry != 0
      invariant left <= |c| && (entry == if left > 0 then c[left - 1] else 0)
      invariant NoneEqual(cfg, m, c, left, key)
      decreases left
    {
      assert In(c, left - 1);
      if cfg.eq(m.key[entry], key) { return; }
      entry := m.next[entry];
      left := left - 1;
    }
    if left > 0 { assert In(c, left - 1); }
  }

  /** The bucket as the code computes it, `hash & (length - 1)`. */
  method BucketOf(cfg: Config, key: Pointer, length: nat) returns (index: nat)
    requires IsPow2(length) && 0 < length
    ensures index == Index(cfg.hash, key, length)
  {
    index := BitAnd(cfg.hash(key), length - 1);
    ghost var k: nat :| Pow2(k) == length;
    ghost var quotient := MaskIsRemainder(cfg.hash(key), k);
    RemainderIs(cfg.hash(key), length, quotient, index);
  }

  /** The cursor's next stop is known before the node is relinked. */
  lemma CursorNext(m0: Memory, s: Shape, m: Memory, homes: Homes, i: nat, left: nat)
    requires i < |s.chains| && 0 < left <= |s.chains[i]|
    requires Walkable(m0, s.chains[i], s.homes) && Located(s.chains, s.homes)
    requires InMemory(m, s.homes) && Waiting(m0, m, s.homes, homes, i, left)
    ensures var node := s.chains[i][left - 1];
      && node != 0 && node in s.homes && m.Allocated(node)
      && m.next[node] == (if left > 1 then s.chains[i][left - 2] else 0)
  {
    var node := s.chains[i][left - 1];
    assert In(s.chains[i], left - 1) && At(s.chains, i, left - 1) && s.homes[node] == (i, left - 1);
  }

  /** What the loops keep about the heads of the new buckets, and, as written, about all `prev`. */
  ghost predicate Tracked(cfg: Config, m0: Memory, s: Shape, m: Memory, heads: seq<Ref>, homes: Homes) {
    HeadsLatest(s.homes, heads, homes) && (!cfg.repaired ==> PrevKept(m0, m, heads, homes))
  }

  lemma TrackedOne(cfg: Config, m0: Memory, length: nat, s: Shape, m: Memory, heads: seq<Ref>, chains: Chains,
                   homes: Homes, i: nat, left: nat, index: nat)
    requires Placed(cfg.hash, m0, s.homes, s.nodeOf, length) && Located(s.chains, s.homes)
    requires Moving(cfg, m0, s, m, heads, chains, homes, i, left) && Tracked(cfg, m0, s, m, heads, homes)
    requires i < |s.chains| && 0 < left <= |s.chains[i]| && |heads| == 2 * length
    requires s.chains[i][left - 1] in m.key && index == Index(cfg.hash, m.key[s.chains[i][left - 1]], |heads|)
    ensures var node := s.chains[i][left - 1];
      Tracked(cfg, m0, s, Pushed(Detached(cfg, m, node), heads[index], node), heads[index := node],
             homes[node := (index, |chains[index]|)])
  {
    var node := s.chains[i][left - 1];
    assert At(s.chains, i, left - 1) && s.homes[node] == (i, left - 1);
    var home := (index, |chains[index]|);
    LatestOne(cfg, m0, length, s, heads, homes, i, left, node, home);
    if !cfg.repaired { KeptOne(m0, m, heads, chains, homes, node, home); }
  }

  /** Lines 70-79: relinks the chain that starts at `head` into the new bucket array. */
  method MoveBucket(cfg: Config, start: Memory, head: Ref, newHeads: seq<Ref>, ghost i: nat,
                    ghost m0: Memory, ghost length: nat, ghost s: Shape,
                    ghost chains0: Chains, ghost homes0: Homes)
    returns (m: Memory, heads: seq<Ref>, ghost chains: Chains, ghost homes: Homes)
    requires IsPow2(|newHeads|) && i < |s.chains| && Located(s.chains, s.homes)
    requires Walkable(m0, s.chains[i], s.homes)
    requires head == if s.chains[i] == [] then 0 else s.chains[i][|s.chains[i]| - 1]
    requires Moving(cfg, m0, s, start, newHeads, chains0, homes0, i, |s.chains[i]|)
    requires Placed(cfg.hash, m0, s.homes, s.nodeOf, length) && |newHeads| == 2 * length
    requires Tracked(cfg, m0, s, start, newHeads, homes0)
    ensures Moving(cfg, m0, s, m, heads, chains, homes, i, 0) && |heads| == |newHeads|
    ensures Tracked(cfg, m0, s, m, heads, homes)
  {
    m, heads, chains, homes := start, newHeads, chains0, homes0;
    var entry := head;
    ghost var left: nat := |s.chains[i]|;
    while entry != 0
      invariant left <= |s.chains[i]| && (entry == if left > 0 then s.chains[i][left - 1] else 0)
      invariant Moving(cfg, m0, s, m, heads, chains, homes, i, left) && |heads| == |newHeads|
      invariant Tracked(cfg, m0, s, m, heads, homes)
      decreases left
    {
      CursorNext(m0, s, m, homes, i, left);
      var temp := entry;
      entry := m.next[entry];
      var newLocation := BucketOf(cfg, m.key[temp], |heads|);
      MoveOne(cfg, m0, s, m, heads, chains, homes, i, left, newLocation);
      TrackedOne(cfg, m0, length, s, m, heads, chains, homes, i, left, newLocation);
      m, heads := Pushed(Detached(cfg, m, temp), heads[newLocation], temp), heads[newLocation := temp];
      chains, homes := chains[newLocation := chains[newLocation] + [temp]],
                       homes[temp := (newLocation, |chains[newLocation]|)];
      left := left - 1;
    }
    if left > 0 { CursorNext(m0, s, m, homes, i, left); }
  }

  lemma MoveStart(cfg: Config, m0: Memory, heads0: seq<Ref>, s: Shape, length: nat)
    requires Inv(cfg, m0, heads0, s) && 0 < length
    ensures Moving(cfg, m0, s, m0, seq(length, _ => 0), seq(length, _ => []), map[], 0, |s.chains[0]|)
  {
    forall n | n in s.homes ensures !IsMoved(s.homes[n], 0, |s.chains[0]|) && n in m0.next {
      assert s.homes[n].1 < |s.chains[s.homes[n].0]|;
    }
  }

  // ---------------------------------------------------------------- the table

  /** The fields of the C struct and the memory behind them. */
  datatype TableState = TableState(memory: Memory, heads: seq<Ref>, numEntries: nat)

  ghost predicate WellFormed(cfg: Config, t: TableState, s: Shape) {
    Inv(cfg, t.memory, t.heads, s) && IsPow2(|t.heads|) && t.numEntries == |s.contents|
  }

  /** The entry equal to `key` is the first one of its bucket. */
  predicate FirstInBucket(cfg: Config, t: TableState, key: Pointer)
    requires 0 < |t.heads|
  {
    var head := t.heads[Index(cfg.hash, key, |t.heads|)];
    head != 0 && head in t.memory.key && cfg.eq(t.memory.key[head], key)
  }

  /** The entry equal to `key` is the last one of those of its bucket that doubling puts into one bucket. */
  ghost predicate LastInBucket(cfg: Config, t: TableState, s: Shape, key: Pointer) {
    exists n ::
      n in t.memory.key && cfg.eq(t.memory.key[n], key) && WasLast(cfg.hash, t.memory, s.homes, 2 * |t.heads|, n)
  }

  /** Doubling reverses what it puts into one bucket. */
  ghost predicate FirstsDoubled(cfg: Config, t: TableState, s: Shape, t': TableState) {
    0 < |t'.heads| && forall key :: FirstInBucket(cfg, t', key) <==> LastInBucket(cfg, t, s, key)
  }

  lemma FirstsOf(cfg: Config, t: TableState, s: Shape, t': TableState, s': Shape)
    requires WellFormed(cfg, t, s) && WellFormed(cfg, t', s') && s'.nodeOf == s.nodeOf
    requires |t'.heads| == 2 * |t.heads| && t'.memory.key == t.memory.key
    requires s'.homes.Keys == s.homes.Keys && HeadsLatest(s.homes, t'.heads, s'.homes)
    ensures FirstsDoubled(cfg, t, s, t')
  {
    forall key ensures FirstInBucket(cfg, t', key) <==> LastInBucket(cfg, t, s, key) {
      FirstOf(cfg, t, s, t', s', key);
    }
  }

  lemma FirstOf(cfg: Config, t: TableState, s: Shape, t': TableState, s': Shape, key: Pointer)
    requires WellFormed(cfg, t, s) && WellFormed(cfg, t', s') && s'.nodeOf == s.nodeOf
    requires |t'.heads| == 2 * |t.heads| && t'.memory.key == t.memory.key
    requires s'.homes.Keys == s.homes.Keys && HeadsLatest(s.homes, t'.heads, s'.homes)
    ensures FirstInBucket(cfg, t', key) <==> LastInBucket(cfg, t, s, key)
  {
    if FirstInBucket(cfg, t', key) {
      var index := Index(cfg.hash, key, |t'.heads|);
      HeadOf(t'.memory, t'.heads, s'.chains, s'.homes, index);
      HeadWasLast(cfg, t.memory, |t.heads|, s, t'.memory, t'.heads, s'.chains, s'.homes, t'.heads[index]);
    }
    if LastInBucket(cfg, t, s, key) {
      var n :| n in t.memory.key && cfg.eq(t.memory.key[n], key)
        && WasLast(cfg.hash, t.memory, s.homes, 2 * |t.heads|, n);
      HeadWasLast(cfg, t.memory, |t.heads|, s, t'.memory, t'.heads, s'.chains, s'.homes, n);
      assert s'.homes[n].0 == Index(cfg.hash, t.memory.key[n], |t'.heads|);
      HeadAllocated(t'.memory, t'.heads, s'.chains, s'.homes, n);
    }
  }

  /** Lines 62-83: twice the buckets, every chain relinked. */
  method Expanded(cfg: Config, t: TableState, ghost s: Shape) returns (t': TableState, ghost s': Shape)
    requires WellFormed(cfg, t, s)
    ensures WellFormed(cfg, t', s') && s'.contents == s.contents && s'.homes.Keys == s.homes.Keys
    ensures |t'.heads| == 2 * |t.heads| && t'.memory.key == t.memory.key
    ensures HeadsReset(t.memory, t.heads) ==>
      (HeadsReset(t'.memory, t'.heads) <==> cfg.repaired || forall b :: 0 <= b < |s.chains| ==> |s.chains[b]| <= 1)
    ensures FirstsDoubled(cfg, t, s, t')
  {
    var newLength := 2 * |t.heads|;
    DoublePow2(|t.heads|);
    var m, heads := t.memory, seq(newLength, _ => 0);
    ghost var chains: Chains, homes: Homes := seq(newLength, _ => []), map[];
    MoveStart(cfg, t.memory, t.heads, s, newLength);
    var i := 0;
    while i < |t.heads|
      invariant i <= |t.heads| && |heads| == newLength
      invariant Moving(cfg, t.memory, s, m, heads, chains, homes, i, if i < |t.heads| then |s.chains[i]| else 0)
      invariant Tracked(cfg, t.memory, s, m, heads, homes)
    {
      FirstNode(cfg, t.memory, t.heads, s, i);
      ChainIsWalkable(cfg, t.memory, t.heads, s, i);
      m, heads, chains, homes := MoveBucket(cfg, m, t.heads[i], heads, i, t.memory, |t.heads|, s, chains, homes);
      MoveNextBucket(cfg, t.memory, s, m, heads, chains, homes, i);
      i := i + 1;
    }
    MoveDone(cfg, t.memory, t.heads, s, m, heads, chains, homes);
    t', s' := TableState(m, heads, t.numEntries), s.(chains := chains, homes := homes);
    FirstsOf(cfg, t, s, t', s');
    if !cfg.repaired && HeadsReset(t.memory, t.heads) {
      StaleExact(cfg, t.memory, t.heads, s, m, heads, chains, homes);
    }
  }

  /** Lines 98-106: the new value goes into the node found. */
  function Replaced(t: TableState, entry: Ref, value: Pointer): TableState {
    t.(memory := t.memory.(value := t.memory.value[entry := value]))
  }

  /** Lines 108-119, for the address `node` that `malloc` returned. */
  function Inserted(t: TableState, key: Pointer, value: Pointer, node: Ref, index: nat): TableState
    requires index < |t.heads|
  {
    TableState(Pushed(WithNode(t.memory, node, key, value), t.heads[index], node), t.heads[index := node],
      t.numEntries + 1)
  }

  /** Lines 132-138. */
  function Deleted(cfg: Config, t: TableState, e: Ref, index: nat): TableState
    requires t.memory.Allocated(e) && index < |t.heads| && 0 < t.numEntries
  {
    TableState(Unlinked(t.memory, e), HeadsAfter(cfg, t.memory, t.heads, index, e), t.numEntries - 1)
  }

  /** Some bucket starts with a node that has been freed. */
  ghost predicate Dangling(t: TableState) {
    exists b :: 0 <= b < |t.heads| && t.heads[b] != 0 && !t.memory.Allocated(t.heads[b])
  }

  lemma WellFormedIsNotDangling(cfg: Config, t: TableState, s: Shape)
    requires WellFormed(cfg, t, s)
    ensures !Dangling(t)
  {
    forall b | 0 <= b < |t.heads| && t.heads[b] != 0 ensures t.memory.Allocated(t.heads[b]) {
      FirstNode(cfg, t.memory, t.heads, s, b);
      ChainIsWalkable(cfg, t.memory, t.heads, s, b);
      assert In(s.chains[b], |s.chains[b]| - 1);
    }
  }

  /** What a put does to the abstract map. */
  ghost predicate PutRelation(cfg: Config, m: map<Pointer, Pointer>, m': map<Pointer, Pointer>,
                              key: Pointer, value: Pointer, r: Option<Pointer>) {
    if r.None? then Absent(cfg.eq, m, key) && m' == m[key := value]
    else exists k :: k in m && cfg.eq(k, key) && m[k] == r.value && m' == m[k := value]
  }

  /** What a delete does to the abstract map. */
  ghost predicate DeleteRelation(cfg: Config, m: map<Pointer, Pointer>, m': map<Pointer, Pointer>,
                                 key: Pointer, r: Option<Pointer>) {
    if r.None? then Absent(cfg.eq, m, key) && m' == m
    else exists k :: k in m && cfg.eq(k, key) && m[k] == r.value && m' == m - {k}
  }

  /** Where the code as written goes wrong: the bucket keeps pointing to the freed head. */
  lemma DeletedHeadDangles(cfg: Config, t: TableState, s: Shape, e: Ref, index: nat, p: nat)
    requires WellFormed(cfg, t, s) && e in s.homes && s.homes[e] == (index, p) && !cfg.repaired
    requires index < |t.heads| && p + 1 == |s.chains[index]| && t.memory.Allocated(e) && 0 < t.numEntries
    ensures Dangling(Deleted(cfg, t, e, index))
    ensures forall s' :: !WellFormed(cfg, Deleted(cfg, t, e, index), s')
  {
    FirstNode(cfg, t.memory, t.heads, s, index);
    assert s.chains[index][p] == e;
    assert t.heads[index] == e && e != 0;
    var t' := Deleted(cfg, t, e, index);
    forall s' ensures !WellFormed(cfg, t', s') { NotBoth(cfg, t', s'); }
  }

  /** The smallest case: the only entry of a table is deleted, and its bucket still points to it. */
  lemma OnlyEntryDangles(cfg: Config)
    requires !cfg.repaired
    ensures var t := TableState(Memory(map[8 := 0], map[8 := 0], map[8 := 5], map[8 := 9]), [8], 1);
      var t' := Deleted(cfg, t, 8, 0);
      t'.heads == [8] && !t'.memory.Allocated(8) && Dangling(t')
  {
    var t := TableState(Memory(map[8 := 0], map[8 := 0], map[8 := 5], map[8 := 9]), [8], 1);
    assert Deleted(cfg, t, 8, 0).heads[0] == 8;
  }

  /** Which entry was first before a put, or, when it doubles the table, would be first after that. */
  ghost predicate WasFirst(cfg: Config, t: TableState, s: Shape, doubles: bool, key: Pointer)
    requires 0 < |t.heads|
  {
    if doubles then LastInBucket(cfg, t, s, key) else FirstInBucket(cfg, t, key)
  }

  /** A new entry becomes the first one of its bucket; the other buckets keep theirs. */
  ghost predicate FirstsAfter(cfg: Config, t: TableState, s: Shape, doubles: bool, t': TableState, inserted: bool,
                              key: Pointer)
    requires 0 < |t.heads|
  {
    0 < |t'.heads| && forall other :: FirstInBucket(cfg, t', other) <==>
      if inserted && Index(cfg.hash, other, |t'.heads|) == Index(cfg.hash, key, |t'.heads|) then cfg.eq(key, other)
      else WasFirst(cfg, t, s, doubles, other)
  }

  lemma InsertedIsFirst(cfg: Config, t: TableState, s: Shape, key: Pointer, value: Pointer, node: Ref, index: nat)
    requires WellFormed(cfg, t, s)
    requires node != 0 && node !in t.memory.key && index == Index(cfg.hash, key, |t.heads|)
    ensures FirstsAfter(cfg, t, s, false, Inserted(t, key, value, node, index), true, key)
  {
    var t' := Inserted(t, key, value, node, index);
    forall other ensures FirstInBucket(cfg, t', other) <==>
      if Index(cfg.hash, other, |t'.heads|) == index then cfg.eq(key, other) else FirstInBucket(cfg, t, other)
    {
      InsertedFirst(cfg, t, s, key, value, node, index, other);
    }
  }

  lemma InsertedFirst(cfg: Config, t: TableState, s: Shape, key: Pointer, value: Pointer, node: Ref, index: nat,
                      other: Pointer)
    requires WellFormed(cfg, t, s)
    requires node != 0 && node !in t.memory.key && index == Index(cfg.hash, key, |t.heads|)
    ensures FirstInBucket(cfg, Inserted(t, key, value, node, index), other) <==>
      if Index(cfg.hash, other, |t.heads|) == index then cfg.eq(key, other) else FirstInBucket(cfg, t, other)
  {
    HeadOf(t.memory, t.heads, s.chains, s.homes, Index(cfg.hash, other, |t.heads|));
  }

  /** The put itself, after the doubling. */
  lemma FirstsCompose(cfg: Config, t: TableState, s: Shape, t1: TableState, s1: Shape, t': TableState, inserted: bool,
                      key: Pointer)
    requires 0 < |t.heads| && FirstsDoubled(cfg, t, s, t1) && FirstsAfter(cfg, t1, s1, false, t', inserted, key)
    ensures FirstsAfter(cfg, t, s, true, t', inserted, key)
  {
  }

  /** The smallest case: the second of two entries of one bucket is first after they both go to another one. */
  lemma DoublingPutsSecondFirst(cfg: Config)
    ensures var m0 := Memory(map[1 := 2, 2 := 0], map[1 := 0, 2 := 1], map[1 := 7, 2 := 5], map[1 := 0, 2 := 0]);
      var m1 := Pushed(Detached(cfg, m0, 2), 0, 2);
      var m2 := Pushed(Detached(cfg, m1, 1), 2, 1);
      var t' := Deleted(cfg, TableState(m2, [0, 1], 2), 2, 1);
      t'.heads == [0, 1] && t'.memory.Allocated(1) && !Dangling(t')
  {
    var m0 := Memory(map[1 := 2, 2 := 0], map[1 := 0, 2 := 1], map[1 := 7, 2 := 5], map[1 := 0, 2 := 0]);
    var m1 := Pushed(Detached(cfg, m0, 2), 0, 2);
    var m2 := Pushed(Detached(cfg, m1, 1), 2, 1);
    assert m2.prev[2] == 1 && m2.next[2] == 0;
  }

  /**
    What line 392 of classloader.c does when a class cannot be loaded and no other has been
    entered since: as written the bucket keeps pointing to the freed entry.
   */
  lemma JustInsertedDangles(cfg: Config, t: TableState, s: Shape, key: Pointer, value: Pointer, node: Ref, index: nat)
    requires WellFormed(cfg, t, s) && Absent(cfg.eq, s.contents, key) && !cfg.repaired
    requires node != 0 && node !in t.memory.key && index == Index(cfg.hash, key, |t.heads|)
    ensures Dangling(Deleted(cfg, Inserted(t, key, value, node, index), node, index))
  {
    var t' := Deleted(cfg, Inserted(t, key, value, node, index), node, index);
    assert t'.heads[index] == node && node !in t'.memory.key;
  }

  lemma NotBoth(cfg: Config, t: TableState, s: Shape)
    ensures !(Dangling(t) && WellFormed(cfg, t, s))
  {
    if WellFormed(cfg, t, s) { WellFormedIsNotDangling(cfg, t, s); }
  }

  /** The lookup shared by all operations. */
  method FindIn(cfg: Config, t: TableState, key: Pointer, ghost s: Shape) returns (entry: Ref)
    requires WellFormed(cfg, t, s)
    ensures if entry == 0 then Absent(cfg.eq, s.contents, key) else Present(cfg, t, s, entry, key)
  {
    var index := BucketOf(cfg, key, |t.heads|);
    FirstNode(cfg, t.memory, t.heads, s, index);
    ChainIsWalkable(cfg, t.memory, t.heads, s, index);
    entry := Walk(cfg, t.memory, t.heads[index], key, s.chains[index], s.homes);
    if entry == 0 {
      NotFoundIsAbsent(cfg, t.memory, t.heads, s, key);
    } else {
      FoundIsPresent(cfg, t.memory, t.heads, s, entry, key);
    }
  }

  /** `entry` is the node of the one key of the map that is equal to `key`. */
  ghost predicate Present(cfg: Config, t: TableState, s: Shape, entry: Ref, key: Pointer) {
    && entry in s.homes && entry in t.memory.key && entry in t.memory.value
    && cfg.eq(t.memory.key[entry], key)
    && t.memory.key[entry] in s.contents && s.contents[t.memory.key[entry]] == t.memory.value[entry]
    && !Absent(cfg.eq, s.contents, key)
  }

  function ShapeWith(s: Shape, key: Pointer, value: Pointer, node: Ref, index: nat): Shape
    requires index < |s.chains|
  {
    Shape(s.contents[key := value], s.nodeOf[key := node],
          s.chains[index := s.chains[index] + [node]], s.homes[node := (index, |s.chains[index]|)])
  }

  lemma ReplacedKeeps(cfg: Config, t: TableState, s: Shape, entry: Ref, key: Pointer, value: Pointer)
    requires WellFormed(cfg, t, s) && Present(cfg, t, s, entry, key)
    ensures var s' := s.(contents := s.contents[t.memory.key[entry] := value]);
      && WellFormed(cfg, Replaced(t, entry, value), s')
      && PutRelation(cfg, s.contents, s'.contents, key, value, Some(t.memory.value[entry]))
  {
    ReplaceKeeps(cfg, t.memory, t.heads, s, entry, value);
  }

  lemma InsertedKeeps(cfg: Config, t: TableState, s: Shape, key: Pointer, value: Pointer, node: Ref, index: nat)
    requires WellFormed(cfg, t, s) && Absent(cfg.eq, s.contents, key)
    requires node != 0 && node !in t.memory.key && index == Index(cfg.hash, key, |t.heads|)
    ensures WellFormed(cfg, Inserted(t, key, value, node, index), ShapeWith(s, key, value, node, index))
  {
    InsertKeeps(cfg, t.memory, t.heads, s, key, value, node, index);
  }

  /** Lines 93-120. */
  method PutAt(cfg: Config, t: TableState, key: Pointer, value: Pointer, node: Ref, ghost s: Shape)
    returns (t': TableState, r: Option<Pointer>, ghost s': Shape)
    requires WellFormed(cfg, t, s) && (node == 0 || node !in t.memory.key)
    ensures WellFormed(cfg, t', s')
    ensures r.None? <==> Absent(cfg.eq, s.contents, key)
    ensures if node == 0 && r.None? then s' == s else PutRelation(cfg, s.contents, s'.contents, key, value, r)
    ensures FirstsAfter(cfg, t, s, false, t', node != 0 && r.None?, key)
    ensures |t'.heads| == |t.heads| && t'.numEntries == t.numEntries + if node != 0 && r.None? then 1 else 0
  {
    t', s', r := t, s, None;
    var entry := FindIn(cfg, t, key, s);
    if entry != 0 {
      ReplacedKeeps(cfg, t, s, entry, key, value);
      r := Some(t.memory.value[entry]);
      t', s' := Replaced(t, entry, value), s.(contents := s.contents[t.memory.key[entry] := value]);
    } else if node != 0 {
      var index := BucketOf(cfg, key, |t.heads|);
      InsertedKeeps(cfg, t, s, key, value, node, index);
      InsertedIsFirst(cfg, t, s, key, value, node, index);
      t', s' := Inserted(t, key, value, node, index), ShapeWith(s, key, value, node, index);
    }
  }

  /** Line 90, and `calloc` finds room for the larger bucket array. */
  predicate Doubles(cfg: Config, t: TableState, granted: bool) {
    t.numEntries as real >= |t.heads| as real * cfg.loadFactor && granted
  }

  /**
    What `ht_put` leaves, for the answers `granted` and `node` of the allocator: the map, its
    answer, and which entry is first in each bucket.
   */
  ghost predicate PutLeaves(cfg: Config, t: TableState, s: Shape, t': TableState, s': Shape,
                            key: Pointer, value: Pointer, granted: bool, node: Ref, r: Option<Pointer>)
    requires 0 < |t.heads|
  {
    && (r.None? <==> Absent(cfg.eq, s.contents, key))
    && (if node == 0 && r.None? then s'.contents == s.contents
        else PutRelation(cfg, s.contents, s'.contents, key, value, r))
    && FirstsAfter(cfg, t, s, Doubles(cfg, t, granted), t', node != 0 && r.None?, key)
    && |t'.heads| == |t.heads| * (if granted && Full(cfg, t) then 2 else 1)
    && t'.numEntries == t.numEntries + if node != 0 && r.None? then 1 else 0
  }

  /** There are as many entries as the load factor allows, or more. */
  predicate Full(cfg: Config, t: TableState) { |t.heads| as real * cfg.loadFactor <= t.numEntries as real }

  /** There is less than one entry more than the load factor allows. */
  predicate Light(cfg: Config, t: TableState) { t.numEntries as real < |t.heads| as real * cfg.loadFactor + 1.0 }

  /**
    As long as memory lasts the load factor is kept: a put on a table that is light leaves it
    light, if the load factor allows one entry at all.
   */
  lemma StaysLight(cfg: Config, t: TableState, s: Shape, t': TableState, s': Shape, key: Pointer, value: Pointer,
                   node: Ref, r: Option<Pointer>)
    requires 0 < |t.heads| && PutLeaves(cfg, t, s, t', s', key, value, true, node, r)
    requires Light(cfg, t) && |t.heads| as real * cfg.loadFactor >= 1.0
    ensures Light(cfg, t') && |t'.heads| as real * cfg.loadFactor >= 1.0
  {
    var allowed := |t.heads| as real * cfg.loadFactor;
    if Full(cfg, t) {
      assert |t'.heads| as real == 2.0 * |t.heads| as real;
      assert |t'.heads| as real * cfg.loadFactor == 2.0 * allowed;
    }
  }

  /** Lines 90-120; `granted` says whether `calloc` finds room for the larger bucket array. */
  method PutInto(cfg: Config, t: TableState, key: Pointer, value: Pointer, granted: bool, node: Ref, ghost s: Shape)
    returns (t': TableState, r: Option<Pointer>, ghost s': Shape)
    requires WellFormed(cfg, t, s) && (node == 0 || node !in t.memory.key)
    ensures WellFormed(cfg, t', s') && PutLeaves(cfg, t, s, t', s', key, value, granted, node, r)
  {
    if Doubles(cfg, t, granted) {
      var t1; ghost var s1: Shape;
      t1, s1 := Expanded(cfg, t, s);
      t', r, s' := PutAt(cfg, t1, key, value, node, s1);
      FirstsCompose(cfg, t, s, t1, s1, t', node != 0 && r.None?, key);
    } else {
      t', r, s' := PutAt(cfg, t, key, value, node, s);
    }
  }

  lemma DeletedKeeps(cfg: Config, t: TableState, s: Shape, entry: Ref, index: nat, p: nat)
    requires WellFormed(cfg, t, s) && entry in s.homes && s.homes[entry] == (index, p)
    requires index < |s.chains| && p < |s.chains[index]| && (p + 1 < |s.chains[index]| || cfg.repaired)
    requires t.memory.Allocated(entry) && 0 < t.numEntries && t.memory.key[entry] in s.contents
    ensures WellFormed(cfg, Deleted(cfg, t, entry, index), ShapeWithout(s, t.memory.key[entry], entry, index, p))
  {
    var t', s' := Deleted(cfg, t, entry, index), ShapeWithout(s, t.memory.key[entry], entry, index, p);
    assert t'.memory == Unlinked(t.memory, entry) && t'.heads == HeadsAfter(cfg, t.memory, t.heads, index, entry);
    assert Inv(cfg, t'.memory, t'.heads, s') by { DeleteKeeps(cfg, t.memory, t.heads, s, entry, index, p); }
    assert |t'.heads| == |t.heads|;
    OneFewer(s.contents, t.memory.key[entry]);
  }

  lemma OneFewer(m: map<Pointer, Pointer>, k: Pointer)
    requires k in m
    ensures |m - {k}| == |m| - 1
  {
    assert (m - {k}).Keys == m.Keys - {k};
    assert |m.Keys| == |m| && |(m - {k}).Keys| == |m - {k}|;
  }

  /** The entry is unlinked and freed, or it was the first of its bucket and stays there. */
  lemma DeletedEither(cfg: Config, t: TableState, s: Shape, entry: Ref, key: Pointer, index: nat, p: nat)
    requires WellFormed(cfg, t, s) && Present(cfg, t, s, entry, key) && index == Index(cfg.hash, key, |t.heads|)
    requires s.homes[entry] == (index, p) && p < |s.chains[index]| && s.chains[index][p] == entry
    requires t.memory.Allocated(entry) && 0 < t.numEntries
    ensures var t', s' := Deleted(cfg, t, entry, index), ShapeWithout(s, t.memory.key[entry], entry, index, p);
      if p + 1 < |s.chains[index]| || cfg.repaired then WellFormed(cfg, t', s') && !Dangling(t')
      else Dangling(t') && !WellFormed(cfg, t', s')
  {
    var t', s' := Deleted(cfg, t, entry, index), ShapeWithout(s, t.memory.key[entry], entry, index, p);
    NotBoth(cfg, t', s');
    if p + 1 < |s.chains[index]| || cfg.repaired {
      DeletedKeeps(cfg, t, s, entry, index, p);
    } else {
      DeletedHeadDangles(cfg, t, s, entry, index, p);
    }
  }

  /** Lines 127-143.  `damaged` says that a bucket was left pointing to the freed node. */
  method DeleteFrom(cfg: Config, t: TableState, key: Pointer, ghost s: Shape)
    returns (t': TableState, r: Option<Pointer>, ghost s': Shape, ghost damaged: bool)
    requires WellFormed(cfg, t, s)
    ensures damaged <==> r.Some? && !cfg.repaired && FirstInBucket(cfg, t, key)
    ensures DeleteRelation(cfg, s.contents, s'.contents, key, r)
    ensures if damaged then Dangling(t') && !WellFormed(cfg, t', s') else WellFormed(cfg, t', s') && !Dangling(t')
  {
    t', s', r, damaged := t, s, None, false;
    var entry := FindIn(cfg, t, key, s);
    if entry == 0 {
      NotBoth(cfg, t, s);
      return;
    }
    var index := BucketOf(cfg, key, |t.heads|);
    r := Some(t.memory.value[entry]);
    ghost var p := PositionOf(cfg, t, s, entry, key);
    DeletedEither(cfg, t, s, entry, key, index, p);
    damaged := p + 1 == |s.chains[index]| && !cfg.repaired;
    t', s' := Deleted(cfg, t, entry, index), ShapeWithout(s, t.memory.key[entry], entry, index, p);
  }

  lemma PositionOf(cfg: Config, t: TableState, s: Shape, entry: Ref, key: Pointer) returns (p: nat)
    requires WellFormed(cfg, t, s) && Present(cfg, t, s, entry, key)
    ensures var index := Index(cfg.hash, key, |t.heads|);
      && s.homes[entry] == (index, p) && p < |s.chains[index]| && s.chains[index][p] == entry
      && t.memory.Allocated(entry) && 0 < t.numEntries
      && (p + 1 == |s.chains[index]| <==> FirstInBucket(cfg, t, key))
  {
    p := s.homes[entry].1;
    assert s.homes[entry].0 == Index(cfg.hash, key, |t.heads|);
    FirstIsLast(cfg, t, s, entry, key, s.homes[entry].0, p);
  }

  lemma FirstIsLast(cfg: Config, t: TableState, s: Shape, entry: Ref, key: Pointer, index: nat, p: nat)
    requires WellFormed(cfg, t, s) && entry in s.homes && s.homes[entry] == (index, p)
    requires entry in t.memory.key && cfg.eq(t.memory.key[entry], key) && index == Index(cfg.hash, key, |t.heads|)
    ensures p + 1 == |s.chains[index]| <==> FirstInBucket(cfg, t, key)
  {
    var c := s.chains[index];
    FirstNode(cfg, t.memory, t.heads, s, index);
    ChainIsWalkable(cfg, t.memory, t.heads, s, index);
    assert s.chains[index][p] == entry && In(c, |c| - 1) && At(s.chains, index, |c| - 1);
    assert t.heads[index] == c[|c| - 1];
    if FirstInBucket(cfg, t, key) {
      SameEntry(cfg, t, s, entry, c[|c| - 1], key);
    }
  }

  /** Equal keys have one node. */
  lemma SameEntry(cfg: Config, t: TableState, s: Shape, e: Ref, f: Ref, key: Pointer)
    requires WellFormed(cfg, t, s) && e in s.homes && f in s.homes
    requires e in t.memory.key && f in t.memory.key && cfg.eq(t.memory.key[e], key) && cfg.eq(t.memory.key[f], key)
    ensures e == f
  {
    assert s.homes[e].0 < |t.heads| && s.homes[f].0 < |t.heads|;
    assert cfg.eq(key, t.memory.key[f]) && cfg.eq(t.memory.key[e], t.memory.key[f]);
  }

  // ---------------------------------------------------------------- ht_entries

  type Pairs = seq<(Pointer, Pointer)>

  /** The keys whose nodes have been passed. */
  ghost predicate Passed(s: Shape, keys: set<Pointer>, i: nat, left: nat) {
    forall k :: k in keys <==>
      k in s.contents && k in s.nodeOf && s.nodeOf[k] in s.homes && IsMoved(s.homes[s.nodeOf[k]], i, left)
  }

  /** The pairs are the entries of the map for the given keys, one to a key. */
  ghost predicate Copied(m: map<Pointer, Pointer>, es: Pairs, keys: set<Pointer>) {
    && |es| == |keys|
    && (forall j {:trigger es[j]} :: 0 <= j < |es| ==> es[j].0 in keys && es[j].0 in m && m[es[j].0] == es[j].1)
    && (forall k {:trigger Lists(es, k)} :: k in keys ==> Lists(es, k))
  }

  ghost predicate Collected(s: Shape, es: Pairs, keys: set<Pointer>, i: nat, left: nat) {
    Passed(s, keys, i, left) && Copied(s.contents, es, keys)
  }

  ghost predicate Lists(es: Pairs, k: Pointer) { exists j :: 0 <= j < |es| && es[j].0 == k }

  lemma CopiedOne(m: map<Pointer, Pointer>, es: Pairs, keys: set<Pointer>, k: Pointer, v: Pointer)
    requires Copied(m, es, keys) && k !in keys && k in m && m[k] == v
    ensures Copied(m, es + [(k, v)], keys + {k})
  {
    var es' := es + [(k, v)];
    forall k' | k' in keys + {k} ensures Lists(es', k') {
      if k' in keys {
        assert Lists(es, k');
        var j :| 0 <= j < |es| && es[j].0 == k';
        assert es'[j].0 == k';
      } else {
        assert es'[|es|].0 == k';
      }
    }
  }

  lemma PassedOne(s: Shape, keys: set<Pointer>, i: nat, left: nat, n: Ref, k: Pointer)
    requires Passed(s, keys, i, left) && Located(s.chains, s.homes) && 0 < left
    requires n in s.homes && s.homes[n] == (i, left - 1) && k in s.contents && k in s.nodeOf && s.nodeOf[k] == n
    requires forall k' :: k' in s.nodeOf && s.nodeOf[k'] == n ==> k' == k
    ensures k !in keys && Passed(s, keys + {k}, i, left - 1)
  {
    forall k' | k' in s.nodeOf && s.nodeOf[k'] in s.homes && s.homes[s.nodeOf[k']] == (i, left - 1) ensures k' == k {
      assert s.chains[i][left - 1] == s.nodeOf[k'] == n;
    }
  }

  lemma CollectOne(cfg: Config, t: TableState, s: Shape, es: Pairs, keys: set<Pointer>, i: nat, left: nat)
    requires WellFormed(cfg, t, s) && Collected(s, es, keys, i, left)
    requires i < |s.chains| && 0 < left <= |s.chains[i]|
    ensures var n := s.chains[i][left - 1];
      && n in t.memory.key && n in t.memory.value && |es| < t.numEntries
      && Collected(s, es + [(t.memory.key[n], t.memory.value[n])], keys + {t.memory.key[n]}, i, left - 1)
  {
    var n := s.chains[i][left - 1];
    assert At(s.chains, i, left - 1) && s.homes[n] == (i, left - 1);
    var k := t.memory.key[n];
    assert s.nodeOf[k] == n;
    PassedOne(s, keys, i, left, n, k);
    CopiedOne(s.contents, es, keys, k, t.memory.value[n]);
    assert keys + {k} <= s.contents.Keys;
    SubsetSize(keys + {k}, s.contents.Keys);
  }

  lemma NextBucketSame(chains: Chains, home: (nat, nat), i: nat)
    requires home.0 < |chains| && home.1 < |chains[home.0]| && i < |chains|
    ensures IsMoved(home, i, 0) <==> IsMoved(home, i + 1, if i + 1 < |chains| then |chains[i + 1]| else 0)
  {
  }

  lemma CollectNextBucket(cfg: Config, t: TableState, s: Shape, es: Pairs, keys: set<Pointer>, i: nat)
    requires WellFormed(cfg, t, s) && Collected(s, es, keys, i, 0) && i < |s.chains|
    ensures Collected(s, es, keys, i + 1, if i + 1 < |s.chains| then |s.chains[i + 1]| else 0)
  {
    forall k | k in s.contents && k in s.nodeOf && s.nodeOf[k] in s.homes
      ensures IsMoved(s.homes[s.nodeOf[k]], i, 0)
        <==> IsMoved(s.homes[s.nodeOf[k]], i + 1, if i + 1 < |s.chains| then |s.chains[i + 1]| else 0)
    {
      NextBucketSame(s.chains, s.homes[s.nodeOf[k]], i);
    }
  }

  /** Lines 184-196: `entries` has room for exactly `numEntries` pairs. */
  method EntriesOf(cfg: Config, t: TableState, ghost s: Shape) returns (es: Pairs)
    requires WellFormed(cfg, t, s)
    ensures |es| == t.numEntries
    ensures forall j {:trigger es[j]} :: 0 <= j < |es| ==> es[j].0 in s.contents && s.contents[es[j].0] == es[j].1
    ensures forall k :: k in s.contents ==> Lists(es, k)
  {
    es := [];
    ghost var keys: set<Pointer> := {};
    var i := 0;
    CollectStart(cfg, t, s);
    while i < |t.heads|
      invariant i <= |t.heads|
      invariant Collected(s, es, keys, i, if i < |s.chains| then |s.chains[i]| else 0)
    {
      FirstNode(cfg, t.memory, t.heads, s, i);
      ChainIsWalkable(cfg, t.memory, t.heads, s, i);
      var entry := t.heads[i];
      ghost var c := s.chains[i];
      ghost var left: nat := |c|;
      while entry != 0
        invariant left <= |c| && (entry == if left > 0 then c[left - 1] else 0)
        invariant Collected(s, es, keys, i, left)
        decreases left
      {
        assert In(c, left - 1);
        CollectOne(cfg, t, s, es, keys, i, left);
        assert |es| < t.numEntries;
        keys := keys + {t.memory.key[entry]};
        es := es + [(t.memory.key[entry], t.memory.value[entry])];
        entry := t.memory.next[entry];
        left := left - 1;
      }
      assert left > 0 ==> In(c, left - 1);
      CollectNextBucket(cfg, t, s, es, keys, i);
      i := i + 1;
    }
    CollectDone(cfg, t, s, es, keys);
  }

  lemma CollectStart(cfg: Config, t: TableState, s: Shape)
    requires WellFormed(cfg, t, s)
    ensures 0 < |s.chains| && Collected(s, [], {}, 0, |s.chains[0]|)
  {
    forall k | k in s.contents ensures !IsMoved(s.homes[s.nodeOf[k]], 0, |s.chains[0]|) {
      assert s.homes[s.nodeOf[k]].1 < |s.chains[s.homes[s.nodeOf[k]].0]|;
    }
  }

  lemma CollectDone(cfg: Config, t: TableState, s: Shape, es: Pairs, keys: set<Pointer>)
    requires WellFormed(cfg, t, s) && Collected(s, es, keys, |s.chains|, 0)
    ensures keys == s.contents.Keys && |es| == t.numEntries
  {
    forall k | k in s.contents ensures k in keys {
      assert s.homes[s.nodeOf[k]].0 < |s.chains|;
    }
    assert keys == s.contents.Keys;
    assert |s.contents.Keys| == |s.contents|;
  }

  class Table {
    var state: TableState
    const cfg: Config
    ghost var shape: Shape

    ghost predicate Valid()
      reads this
    {
      WellFormed(cfg, state, shape)
    }

    constructor (cfg: Config)
      requires Lawful(cfg.hash, cfg.eq)
      ensures Valid() && this.cfg == cfg && shape.contents == map[]
    {
      this.cfg := cfg;
      state := TableState(Memory(map[], map[], map[], map[]), seq(16, _ => 0), 0);
      shape := Shape(map[], map[], seq(16, _ => []), map[]);
      new;
      EmptyTable(cfg, 16);
      assert Pow2(4) == 16 by { assert Pow2(0) == 1; assert Pow2(2) == 4; }
    }

    method Get(key: Pointer) returns (r: Option<Pointer>)
      requires Valid()
      ensures r.None? <==> Absent(cfg.eq, shape.contents, key)
      ensures r.Some? ==> exists k :: k in shape.contents && cfg.eq(k, key) && shape.contents[k] == r.value
    {
      var entry := FindIn(cfg, state, key, shape);
      if entry == 0 { return None; }
      r := Some(state.memory.value[entry]);
    }

    method Contains(key: Pointer) returns (r: bool)
      requires Valid()
      ensures r <==> !Absent(cfg.eq, shape.contents, key)
    {
      var entry := FindIn(cfg, state, key, shape);
      r := entry != 0;
    }

    /**
      `ht_put`.  `granted` and `node` are what the allocator would answer; address 0 is a
      failed `malloc`.  A key equal to one in the map takes over that key's value.
     */
    method Put(key: Pointer, value: Pointer, granted: bool, node: Ref) returns (r: Option<Pointer>)
      requires Valid() && (node == 0 || node !in state.memory.key)
      modifies this
      ensures Valid() && PutLeaves(cfg, old(state), old(shape), state, shape, key, value, granted, node, r)
    {
      ghost var s': Shape;
      var t;
      t, r, s' := PutInto(cfg, state, key, value, granted, node, shape);
      state, shape := t, s';
      assert WellFormed(cfg, state, shape) by { assert state == t && shape == s'; }
    }

    /** `ht_entries`: every entry, once. */
    method Entries() returns (es: Pairs)
      requires Valid()
      ensures |es| == |shape.contents|
      ensures forall j {:trigger es[j]} :: 0 <= j < |es| ==>
        es[j].0 in shape.contents && shape.contents[es[j].0] == es[j].1
      ensures forall k :: k in shape.contents ==> Lists(es, k)
    {
      es := EntriesOf(cfg, state, shape);
    }

    /**
      `ht_delete`.  As written it keeps the table intact if and only if the key is absent or
      its entry is not the first one of its bucket; otherwise a bucket is left pointing to
      the freed node.
     */
    method Delete(key: Pointer) returns (r: Option<Pointer>)
      requires Valid()
      modifies this
      ensures r.None? <==> old(Absent(cfg.eq, shape.contents, key))
      ensures DeleteRelation(cfg, old(shape.contents), shape.contents, key, r)
      ensures Valid() <==> (r.None? || cfg.repaired || !old(FirstInBucket(cfg, state, key)))
      ensures Valid() <==> !Dangling(state)
    {
      ghost var s', damaged;
      var t;
      t, r, s', damaged := DeleteFrom(cfg, state, key, shape);
      state, shape := t, s';
      assert WellFormed(cfg, state, shape) == WellFormed(cfg, t, s') by { assert state == t && shape == s'; }
    }
  }

  // ---------------------------------------------------------------- any sequence of operations

  datatype Op = PutOp(key: Pointer, value: Pointer) | DeleteOp(key: Pointer)

  /** The map answers `v` for `q`. */
  ghost predicate Answers(cfg: Config, m: map<Pointer, Pointer>, q: Pointer, v: Pointer) {
    exists k :: k in m && cfg.eq(k, q) && m[k] == v
  }

  /** What a table should answer after the operations: the last one on a key equal to `q` decides. */
  function LastWrite(cfg: Config, ops: seq<Op>, q: Pointer): Option<Pointer> {
    if ops == [] then None
    else
      var op := ops[|ops| - 1];
      if cfg.eq(op.key, q) then (if op.PutOp? then Some(op.value) else None)
      else LastWrite(cfg, ops[..|ops| - 1], q)
  }

  ghost predicate StepRelation(cfg: Config, m: map<Pointer, Pointer>, m': map<Pointer, Pointer>, op: Op) {
    match op
    case PutOp(key, value) => exists r :: PutRelation(cfg, m, m', key, value, r)
    case DeleteOp(key) => exists r :: DeleteRelation(cfg, m, m', key, r)
  }

  lemma PutMeaning(cfg: Config, m: map<Pointer, Pointer>, m': map<Pointer, Pointer>, key: Pointer, value: Pointer,
                   r: Option<Pointer>, q: Pointer, v: Pointer)
    requires Lawful(cfg.hash, cfg.eq) && NoTwins(cfg.eq, m) && PutRelation(cfg, m, m', key, value, r)
    ensures NoTwins(cfg.eq, m')
    ensures Answers(cfg, m', q, v) <==> if cfg.eq(key, q) then v == value else Answers(cfg, m, q, v)
  {
    if r.None? {
      NoTwinsInsert(cfg, m, key, value);
      assert cfg.eq(key, q) ==> (key in m' && m'[key] == value);
      assert forall k :: k in m && cfg.eq(k, q) && cfg.eq(key, q) ==> cfg.eq(q, key) && cfg.eq(k, key);
    } else {
      var k0 :| k0 in m && cfg.eq(k0, key) && m[k0] == r.value && m' == m[k0 := value];
      assert cfg.eq(key, k0);
      assert cfg.eq(key, q) <==> cfg.eq(k0, q);
      assert forall k :: k in m && cfg.eq(k, q) && cfg.eq(k0, q) ==> cfg.eq(q, k0) && cfg.eq(k, k0);
      assert cfg.eq(k0, q) ==> m'[k0] == value;
    }
    forall k | k in m && k in m' && m[k] == m'[k] && cfg.eq(k, q) && m[k] == v ensures Answers(cfg, m', q, v) {}
  }

  lemma DeleteMeaning(cfg: Config, m: map<Pointer, Pointer>, m': map<Pointer, Pointer>, key: Pointer,
                      r: Option<Pointer>, q: Pointer, v: Pointer)
    requires Lawful(cfg.hash, cfg.eq) && NoTwins(cfg.eq, m) && DeleteRelation(cfg, m, m', key, r)
    ensures NoTwins(cfg.eq, m')
    ensures Answers(cfg, m', q, v) <==> !cfg.eq(key, q) && Answers(cfg, m, q, v)
  {
    assert forall k :: k in m && cfg.eq(k, q) && cfg.eq(key, q) ==> cfg.eq(q, key) && cfg.eq(k, key);
    if r.Some? {
      var k0 :| k0 in m && cfg.eq(k0, key) && m[k0] == r.value && m' == m - {k0};
      assert cfg.eq(key, k0);
      assert forall k :: k in m && cfg.eq(k, key) ==> cfg.eq(k, k0);
      assert cfg.eq(k0, q) ==> cfg.eq(key, q);
    }
  }

  lemma StepMeaning(cfg: Config, m: map<Pointer, Pointer>, m': map<Pointer, Pointer>, op: Op, q: Pointer, v: Pointer)
    requires Lawful(cfg.hash, cfg.eq) && NoTwins(cfg.eq, m) && StepRelation(cfg, m, m', op)
    ensures NoTwins(cfg.eq, m')
    ensures Answers(cfg, m', q, v) <==> if cfg.eq(op.key, q) then op == PutOp(op.key, v) else Answers(cfg, m, q, v)
  {
    match op
    case PutOp(key, value) =>
      var r :| PutRelation(cfg, m, m', key, value, r);
      PutMeaning(cfg, m, m', key, value, r, q, v);
    case DeleteOp(key) =>
      var r :| DeleteRelation(cfg, m, m', key, r);
      DeleteMeaning(cfg, m, m', key, r, q, v);
  }

  /** The maps before and after each operation, from the empty one. */
  ghost predicate IsHistory(cfg: Config, ops: seq<Op>, maps: seq<map<Pointer, Pointer>>) {
    && |maps| == |ops| + 1 && maps[0] == map[]
    && forall i {:trigger ops[i]} :: 0 <= i < |ops| ==> StepRelation(cfg, maps[i], maps[i + 1], ops[i])
  }

  lemma HistoryBefore(cfg: Config, ops: seq<Op>, maps: seq<map<Pointer, Pointer>>, n: nat)
    requires IsHistory(cfg, ops, maps) && n < |ops|
    ensures IsHistory(cfg, ops[..n], maps[..n + 1])
    ensures StepRelation(cfg, maps[n], maps[n + 1], ops[n])
  {
    forall i | 0 <= i < n ensures StepRelation(cfg, maps[..n + 1][i], maps[..n + 1][i + 1], ops[..n][i]) {
      assert ops[..n][i] == ops[i];
    }
  }

  /**
    For any sequence of puts and deletes on an initially empty table, each of which relates
    the map before and after as `Put` and `Delete` promise, a lookup answers what the last
    operation on an equal key says.
   */
  lemma {:induction false} SequenceMeaning(cfg: Config, ops: seq<Op>, maps: seq<map<Pointer, Pointer>>, q: Pointer,
                                           v: Pointer)
    requires Lawful(cfg.hash, cfg.eq) && IsHistory(cfg, ops, maps)
    ensures NoTwins(cfg.eq, maps[|ops|])
    ensures Answers(cfg, maps[|ops|], q, v) <==> LastWrite(cfg, ops, q) == Some(v)
    decreases |ops|
  {
    if ops != [] {
      var n := |ops| - 1;
      HistoryBefore(cfg, ops, maps, n);
      SequenceMeaning(cfg, ops[..n], maps[..n + 1], q, v);
      StepMeaning(cfg, maps[n], maps[n + 1], ops[n], q, v);
    }
  }
}
