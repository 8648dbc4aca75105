/** The FAT as a set of cluster chains: what a chain is, when the FAT is a forest of disjoint acyclic
    chains, and how single entry updates act on it. Entries are numbers; `|fat|` is n_fatent. */
module Forest {

  /** `ch` lists a chain from its first cluster to the one holding an end-of-chain mark. */
  ghost predicate IsChain(fat: seq<nat>, ch: seq<nat>) {
    && |ch| > 0
    && (forall i :: 0 <= i < |ch| ==> 2 <= ch[i] < |fat|)
    && (forall i :: 0 <= i < |ch| - 1 ==> fat[ch[i]] == ch[i + 1])
    && fat[ch[|ch| - 1]] >= |fat|
  }

  ghost predicate Ends(fat: seq<nat>, c: nat) {
    exists ch :: IsChain(fat, ch) && ch[0] == c
  }

  /** No entry holds the reserved value 1 and no entry links to a free cluster. */
  ghost predicate NoDangling(fat: seq<nat>) {
    forall c :: 2 <= c < |fat| ==> fat[c] != 1 && (2 <= fat[c] < |fat| ==> fat[fat[c]] != 0)
  }

  /** No cluster has two predecessors. */
  ghost predicate NoSharing(fat: seq<nat>) {
    forall a, b :: 2 <= a < |fat| && 2 <= b < |fat| && a != b && 2 <= fat[a] < |fat| ==> fat[a] != fat[b]
  }

  /** Every used cluster reaches an end-of-chain mark. */
  ghost predicate NoCycle(fat: seq<nat>) {
    forall c :: 2 <= c < |fat| && fat[c] != 0 ==> Ends(fat, c)
  }

  /** The used clusters form disjoint acyclic chains. */
  ghost predicate IsForest(fat: seq<nat>) {
    NoDangling(fat) && NoSharing(fat) && NoCycle(fat)
  }

  ghost predicate NoPredecessor(fat: seq<nat>, c: nat) {
    forall a :: 2 <= a < |fat| ==> fat[a] != c
  }

  lemma ChainNext(fat: seq<nat>, ch: seq<nat>, i: nat)
    requires IsChain(fat, ch) && i + 1 < |ch|
    ensures fat[ch[i]] == ch[i + 1] < |fat|
  {
  }

  /** A chain never revisits a cluster. */
  lemma {:induction false} ChainDistinct(fat: seq<nat>, ch: seq<nat>, i: nat, j: nat)
    requires IsChain(fat, ch) && i < j < |ch|
    ensures ch[i] != ch[j]
    decreases |ch| - j
  {
    if ch[i] == ch[j] {
      ChainNext(fat, ch, i);
      if j < |ch| - 1 {
        ChainNext(fat, ch, j);
        ChainDistinct(fat, ch, i + 1, j + 1);
      }
    }
  }

  /** Two chains that share their first cluster are the same chain. */
  lemma {:induction false} ChainUnique(fat: seq<nat>, a: seq<nat>, b: seq<nat>)
    requires IsChain(fat, a) && IsChain(fat, b) && a[0] == b[0]
    ensures a == b
    decreases |a|
  {
    if |a| == 1 {
      if |b| > 1 {
        ChainNext(fat, b, 0);
      }
    } else {
      assert fat[a[0]] == a[1];
      assert |b| > 1;
      assert fat[b[0]] == b[1];
      ChainSuffix(fat, a, 1);
      ChainSuffix(fat, b, 1);
      ChainUnique(fat, a[1..], b[1..]);
      assert a == [a[0]] + a[1..] && b == [b[0]] + b[1..];
    }
  }

  lemma ChainSuffix(fat: seq<nat>, ch: seq<nat>, i: nat)
    requires IsChain(fat, ch) && i < |ch|
    ensures IsChain(fat, ch[i..]) && ch[i..][0] == ch[i]
  {
    var t := ch[i..];
    forall j | 0 <= j < |t| - 1
      ensures fat[t[j]] == t[j + 1]
    {
      assert fat[ch[i + j]] == ch[i + j + 1];
    }
    assert t[|t| - 1] == ch[|ch| - 1];
  }

  /** An update outside a chain leaves the chain as it is. */
  lemma ChainFrame(fat: seq<nat>, ch: seq<nat>, c: nat, v: nat)
    requires IsChain(fat, ch) && c < |fat| && c !in ch
    ensures IsChain(fat[c := v], ch)
  {
  }

  /** An end mark put on element `i` cuts the chain there. */
  lemma ChainCut(fat: seq<nat>, ch: seq<nat>, i: nat, v: nat)
    requires IsChain(fat, ch) && i < |ch| && v >= |fat|
    ensures IsChain(fat[ch[i] := v], ch[..i + 1])
  {
    var t := ch[..i + 1];
    forall j | 0 <= j < |t| - 1
      ensures fat[ch[i] := v][t[j]] == t[j + 1]
    {
      ChainDistinct(fat, ch, j, i);
      assert fat[ch[j]] == ch[j + 1];
    }
  }

  /** Linking a fresh end cluster behind the last one stretches the chain. */
  lemma ChainStretch(fat: seq<nat>, ch: seq<nat>, c: nat)
    requires IsChain(fat, ch) && 2 <= c < |fat| && fat[c] >= |fat| && c !in ch
    ensures IsChain(fat[ch[|ch| - 1] := c], ch + [c])
  {
    var p := ch[|ch| - 1];
    var t := ch + [c];
    forall j | 0 <= j < |t| - 1
      ensures fat[p := c][t[j]] == t[j + 1]
    {
      if j < |ch| - 1 {
        ChainDistinct(fat, ch, j, |ch| - 1);
        assert fat[ch[j]] == ch[j + 1];
      }
    }
  }

  // ---------- the four single updates the engine makes ----------

  lemma FreeNotInChain(fat: seq<nat>, ch: seq<nat>, c: nat)
    requires IsChain(fat, ch) && c < |fat| && fat[c] == 0
    ensures c !in ch
  {
    forall i | 0 <= i < |ch|
      ensures ch[i] != c
    {
      if i < |ch| - 1 {
        ChainNext(fat, ch, i);
      }
    }
  }

  lemma RootNotInChain(fat: seq<nat>, ch: seq<nat>, c: nat)
    requires IsChain(fat, ch) && NoPredecessor(fat, c) && ch[0] != c
    ensures c !in ch
  {
    forall i | 0 <= i < |ch|
      ensures ch[i] != c
    {
      if i > 0 {
        assert fat[ch[i - 1]] == ch[i];
      }
    }
  }

  lemma EndFrame(fat: seq<nat>, ch: seq<nat>, c: nat, v: nat)
    requires IsChain(fat, ch) && c < |fat| && c !in ch
    ensures Ends(fat[c := v], ch[0])
  {
    ChainFrame(fat, ch, c, v);
  }

  lemma AllocLocal(fat: seq<nat>, c: nat, v: nat)
    requires NoDangling(fat) && NoSharing(fat) && 2 <= c < |fat| && fat[c] == 0 && v >= |fat|
    ensures NoDangling(fat[c := v]) && NoSharing(fat[c := v]) && NoPredecessor(fat[c := v], c)
  {
    Unshared(fat, c, v);
    CutLocal(fat, c, v);
    var f := fat[c := v];
    forall a | 2 <= a < |f|
      ensures f[a] != c
    {
      assert a != c ==> f[a] == fat[a];
    }
  }

  /** Marking a free cluster as an end of chain. */
  lemma AllocStep(fat: seq<nat>, c: nat, v: nat)
    requires IsForest(fat) && 2 <= c < |fat| && fat[c] == 0 && v >= |fat|
    ensures IsForest(fat[c := v]) && NoPredecessor(fat[c := v], c)
  {
    hide NoDangling, NoSharing, NoPredecessor;
    var f := fat[c := v];
    AllocLocal(fat, c, v);
    forall d | 2 <= d < |f| && f[d] != 0
      ensures Ends(f, d)
    {
      if d == c {
        assert IsChain(f, [c]);
      } else {
        var ch :| IsChain(fat, ch) && ch[0] == d;
        hide IsChain;
        FreeNotInChain(fat, ch, c);
        EndFrame(fat, ch, c, v);
      }
    }
  }

  lemma LinkLocal(fat: seq<nat>, p: nat, c: nat)
    requires NoDangling(fat) && NoSharing(fat) && 2 <= p < |fat| && 2 <= c < |fat| && p != c
    requires fat[p] >= |fat| && fat[c] >= |fat| && NoPredecessor(fat, c)
    ensures NoDangling(fat[p := c]) && NoSharing(fat[p := c])
  {
    var f := fat[p := c];
    forall d | 2 <= d < |f|
      ensures f[d] != 1 && (2 <= f[d] < |f| ==> f[f[d]] != 0)
    {
      assert d != p ==> f[d] == fat[d];
    }
    forall a, b | 2 <= a < |f| && 2 <= b < |f| && a != b && 2 <= f[a] < |f|
      ensures f[a] != f[b]
    {
      assert a != p ==> f[a] == fat[a];
      assert b != p ==> f[b] == fat[b];
    }
  }

  /** Replacing an entry by something that is no link creates no sharing and frees its successor of predecessors. */
  lemma Unshared(fat: seq<nat>, p: nat, v: nat)
    requires NoSharing(fat) && 2 <= p < |fat| && !(2 <= v < |fat|)
    ensures NoSharing(fat[p := v])
    ensures 2 <= fat[p] < |fat| ==> NoPredecessor(fat[p := v], fat[p])
  {
    var f := fat[p := v];
    forall a, b | 2 <= a < |f| && 2 <= b < |f| && a != b && 2 <= f[a] < |f|
      ensures f[a] != f[b]
    {
      assert f[a] == fat[a];
      assert b != p ==> f[b] == fat[b];
    }
  }

  lemma CutLocal(fat: seq<nat>, p: nat, v: nat)
    requires NoDangling(fat) && 2 <= p < |fat| && v >= |fat|
    ensures NoDangling(fat[p := v])
  {
  }

  lemma FreeLocal(fat: seq<nat>, c: nat)
    requires NoDangling(fat) && 2 <= c < |fat| && NoPredecessor(fat, c)
    ensures NoDangling(fat[c := 0])
  {
  }

  /** Linking an end cluster `p` to an end cluster `c` that nothing links to. */
  lemma LinkStep(fat: seq<nat>, p: nat, c: nat)
    requires IsForest(fat) && 2 <= p < |fat| && 2 <= c < |fat| && p != c
    requires fat[p] >= |fat| && fat[c] >= |fat| && NoPredecessor(fat, c)
    ensures IsForest(fat[p := c])
  {
    hide NoDangling, NoSharing, NoPredecessor;
    var f := fat[p := c];
    LinkLocal(fat, p, c);
    forall d | 2 <= d < |f| && f[d] != 0
      ensures Ends(f, d)
    {
      var ch :| IsChain(fat, ch) && ch[0] == d;
      if p in ch {
        LastOfChain(fat, ch, p);
        if c in ch {
          LastOfChain(fat, ch, c);
        }
        ChainStretch(fat, ch, c);
        assert (ch + [c])[0] == d;
      } else {
        EndFrame(fat, ch, p, c);
      }
    }
  }

  lemma LastOfChain(fat: seq<nat>, ch: seq<nat>, p: nat)
    requires IsChain(fat, ch) && p in ch && p < |fat| && fat[p] >= |fat|
    ensures ch[|ch| - 1] == p
  {
    var i :| 0 <= i < |ch| && ch[i] == p;
    if i < |ch| - 1 {
      ChainNext(fat, ch, i);
    }
  }

  /** Cutting a chain behind a used cluster; what was behind it has no predecessor any more. */
  lemma CutStep(fat: seq<nat>, p: nat, v: nat)
    requires IsForest(fat) && 2 <= p < |fat| && fat[p] != 0 && v >= |fat|
    ensures IsForest(fat[p := v])
    ensures 2 <= fat[p] < |fat| ==> NoPredecessor(fat[p := v], fat[p])
  {
    hide NoDangling, NoSharing, NoPredecessor;
    var f := fat[p := v];
    Unshared(fat, p, v);
    CutLocal(fat, p, v);
    forall d | 2 <= d < |f| && f[d] != 0
      ensures Ends(f, d)
    {
      var ch :| IsChain(fat, ch) && ch[0] == d;
      if p in ch {
        var i :| 0 <= i < |ch| && ch[i] == p;
        ChainCut(fat, ch, i, v);
        assert ch[..i + 1][0] == d;
      } else {
        EndFrame(fat, ch, p, v);
      }
    }
  }

  /** Freeing a cluster nothing links to; its successor then has no predecessor. */
  lemma FreeStep(fat: seq<nat>, c: nat)
    requires IsForest(fat) && 2 <= c < |fat| && NoPredecessor(fat, c)
    ensures IsForest(fat[c := 0])
    ensures 2 <= fat[c] < |fat| ==> NoPredecessor(fat[c := 0], fat[c])
  {
    hide NoDangling, NoSharing, NoPredecessor;
    var f := fat[c := 0];
    Unshared(fat, c, 0);
    FreeLocal(fat, c);
    forall d | 2 <= d < |f| && f[d] != 0
      ensures Ends(f, d)
    {
      var ch :| IsChain(fat, ch) && ch[0] == d;
      hide IsChain;
      RootNotInChain(fat, ch, c);
      EndFrame(fat, ch, c, 0);
    }
  }

  // ---------- any single update ----------

  /** No chain from `h` leads to `c`. */
  ghost predicate Unreached(fat: seq<nat>, h: nat, c: nat) {
    forall ch :: IsChain(fat, ch) && ch[0] == h ==> c !in ch
  }

  /** Entry `c` may take the value `h`: it has it, or it is freed while nothing links to it, or it becomes an end, or it
      links to the start of another chain. */
  ghost predicate MayTake(fat: seq<nat>, c: nat, h: nat)
    requires c < |fat|
  {
    || h == fat[c]
    || (h == 0 && NoPredecessor(fat, c))
    || h >= |fat|
    || (2 <= h < |fat| && fat[h] != 0 && NoPredecessor(fat, h) && Unreached(fat, h, c))
  }

  lemma SplicedChain(fat: seq<nat>, p: nat, ch: seq<nat>, tail: seq<nat>)
    requires IsChain(fat, ch) && IsChain(fat, tail) && ch[|ch| - 1] == p && p !in tail
    ensures IsChain(fat[p := tail[0]], ch + tail)
  {
    var f, t := fat[p := tail[0]], ch + tail;
    forall i | 0 <= i < |t| - 1
      ensures f[t[i]] == t[i + 1]
    {
      if i < |ch| - 1 {
        ChainDistinct(fat, ch, i, |ch| - 1);
        assert fat[ch[i]] == ch[i + 1];
      } else if i > |ch| - 1 {
        assert t[i] == tail[i - |ch|] && t[i + 1] == tail[i - |ch| + 1];
        assert fat[tail[i - |ch|]] == tail[i - |ch| + 1];
      }
    }
    assert t[|t| - 1] == tail[|tail| - 1];
  }

  lemma JoinLocal(fat: seq<nat>, p: nat, h: nat)
    requires NoDangling(fat) && NoSharing(fat) && 2 <= p < |fat| && fat[p] >= |fat|
    requires 2 <= h < |fat| && fat[h] != 0 && NoPredecessor(fat, h)
    ensures NoDangling(fat[p := h]) && NoSharing(fat[p := h])
  {
    var f := fat[p := h];
    forall d | 2 <= d < |f|
      ensures f[d] != 1 && (2 <= f[d] < |f| ==> f[f[d]] != 0)
    {
      assert d != p ==> f[d] == fat[d];
    }
    forall a, b | 2 <= a < |f| && 2 <= b < |f| && a != b && 2 <= f[a] < |f|
      ensures f[a] != f[b]
    {
      assert a != p ==> f[a] == fat[a];
      assert b != p ==> f[b] == fat[b];
    }
  }

  /** Linking the end of a chain to the start of another one. */
  lemma JoinStep(fat: seq<nat>, p: nat, h: nat)
    requires IsForest(fat) && 2 <= p < |fat| && fat[p] >= |fat|
    requires 2 <= h < |fat| && fat[h] != 0 && NoPredecessor(fat, h) && Unreached(fat, h, p)
    ensures IsForest(fat[p := h])
  {
    hide NoDangling, NoSharing, NoPredecessor;
    var f := fat[p := h];
    JoinLocal(fat, p, h);
    var tail :| IsChain(fat, tail) && tail[0] == h;
    forall d | 2 <= d < |f| && f[d] != 0
      ensures Ends(f, d)
    {
      var ch :| IsChain(fat, ch) && ch[0] == d;
      if p in ch {
        LastOfChain(fat, ch, p);
        SplicedChain(fat, p, ch, tail);
        assert (ch + tail)[0] == d;
      } else {
        EndFrame(fat, ch, p, h);
      }
    }
  }

  /** After a cut the chain of `h` still does not lead to `c`. */
  lemma UnreachedCut(fat: seq<nat>, h: nat, c: nat, v: nat)
    requires Unreached(fat, h, c) && Ends(fat, h) && 2 <= c < |fat|
    ensures Unreached(fat[c := v], h, c)
  {
    var tail :| IsChain(fat, tail) && tail[0] == h;
    ChainFrame(fat, tail, c, v);
    forall ch | IsChain(fat[c := v], ch) && ch[0] == h
      ensures c !in ch
    {
      ChainUnique(fat[c := v], ch, tail);
    }
  }

  /** An entry linked to the start of another chain, whatever it was before: cut first, then join. */
  lemma RelinkStep(fat: seq<nat>, c: nat, h: nat)
    requires IsForest(fat) && 2 <= c < |fat|
    requires 2 <= h < |fat| && fat[h] != 0 && NoPredecessor(fat, h) && Unreached(fat, h, c)
    ensures IsForest(fat[c := h])
  {
    hide NoDangling, NoSharing, IsChain;
    var mid := fat[c := |fat|];
    if fat[c] == 0 { AllocStep(fat, c, |fat|); } else { CutStep(fat, c, |fat|); }
    UnreachedOther(fat, h, c);
    UnreachedCut(fat, h, c, |fat|);
    assert NoPredecessor(mid, h) by {
      forall a | 2 <= a < |mid| ensures mid[a] != h { assert a != c ==> mid[a] == fat[a]; }
    }
    JoinStep(mid, c, h);
    assert mid[c := h] == fat[c := h];
  }

  lemma UnreachedOther(fat: seq<nat>, h: nat, c: nat)
    requires NoCycle(fat) && 2 <= h < |fat| && fat[h] != 0 && Unreached(fat, h, c)
    ensures h != c && Ends(fat, h)
  {
    var tail :| IsChain(fat, tail) && tail[0] == h;
    assert tail[0] in tail;
  }

  /** Up to element `i` the chains from `ch[0]` agree, if nothing before `i` was changed. */
  lemma {:induction false} ChainAgrees(fat: seq<nat>, ch: seq<nat>, c: nat, h: nat, i: nat, t: seq<nat>, j: nat)
    requires IsChain(fat, ch) && i < |ch| && ch[i] == c && j <= i
    requires IsChain(fat[c := h], t) && t[0] == ch[0] && 2 <= h < |fat|
    ensures j < |t| && t[j] == ch[j]
  {
    if j > 0 {
      ChainAgrees(fat, ch, c, h, i, t, j - 1);
      ChainDistinct(fat, ch, j - 1, i);
      assert fat[ch[j - 1]] == ch[j];
      if j - 1 < |t| - 1 { ChainNext(fat[c := h], t, j - 1); }
    }
  }

  /** A link back to a cluster that leads here closes a cycle. */
  lemma CycleClosed(fat: seq<nat>, ch: seq<nat>, c: nat)
    requires IsChain(fat, ch) && c in ch
    ensures !Ends(fat[c := ch[0]], ch[0])
  {
    var h := ch[0];
    var i :| 0 <= i < |ch| && ch[i] == c;
    if Ends(fat[c := h], h) {
      var t :| IsChain(fat[c := h], t) && t[0] == h;
      ChainAgrees(fat, ch, c, h, i, t, i);
      if i < |t| - 1 {
        ChainNext(fat[c := h], t, i);
        ChainDistinct(fat[c := h], t, 0, i + 1);
      }
    }
  }

  /** No used cluster of a forest links to itself. */
  lemma NoSelfLink(fat: seq<nat>, c: nat)
    requires NoCycle(fat) && 2 <= c < |fat|
    ensures fat[c] != c
  {
    if fat[c] == c {
      var ch :| IsChain(fat, ch) && ch[0] == c;
      if |ch| > 1 { ChainDistinct(fat, ch, 0, 1); }
    }
  }

  lemma FreedRoot(fat: seq<nat>, c: nat)
    requires NoCycle(fat) && 2 <= c < |fat| && fat[c] != 0 && NoDangling(fat[c := 0])
    ensures NoPredecessor(fat, c)
  {
    NoSelfLink(fat, c);
    var f := fat[c := 0];
    forall a | 2 <= a < |fat|
      ensures fat[a] != c
    {
      if a != c { assert f[a] == fat[a] && f[c] == 0; }
    }
  }

  lemma LinkedRoot(fat: seq<nat>, c: nat, h: nat)
    requires 2 <= c < |fat| && 2 <= h < |fat| && h != fat[c]
    requires NoDangling(fat[c := h]) && NoSharing(fat[c := h]) && NoCycle(fat[c := h])
    ensures fat[h] != 0 && NoPredecessor(fat, h)
  {
    var f := fat[c := h];
    NoSelfLink(f, c);
    assert f[c] == h && f[h] == fat[h];
    forall a | 2 <= a < |fat|
      ensures fat[a] != h
    {
      if a != c { assert f[a] == fat[a]; }
    }
  }

  lemma LinkedUnreached(fat: seq<nat>, c: nat, h: nat)
    requires 2 <= c < |fat| && 2 <= h < |fat| && NoCycle(fat[c := h]) && fat[c := h][h] != 0
    ensures Unreached(fat, h, c)
  {
    forall ch | IsChain(fat, ch) && ch[0] == h
      ensures c !in ch
    {
      if c in ch { CycleClosed(fat, ch, c); }
    }
  }

  lemma TakenAllowed(fat: seq<nat>, c: nat, h: nat)
    requires IsForest(fat) && 2 <= c < |fat| && IsForest(fat[c := h])
    ensures MayTake(fat, c, h)
  {
    hide NoSharing, NoCycle, NoPredecessor, Unreached;
    if h == 0 && fat[c] != 0 {
      FreedRoot(fat, c);
    } else if 2 <= h < |fat| && h != fat[c] {
      LinkedRoot(fat, c, h);
      LinkedUnreached(fat, c, h);
    } else {
      assert fat[c := h][c] != 1;
    }
  }

  /** One entry of a forest changed to any value leaves a forest if and only if the entry may take it. */
  lemma UpdateExact(fat: seq<nat>, c: nat, h: nat)
    requires IsForest(fat) && 2 <= c < |fat|
    ensures IsForest(fat[c := h]) <==> MayTake(fat, c, h)
  {
    hide IsForest, NoPredecessor, Unreached;
    if IsForest(fat[c := h]) { TakenAllowed(fat, c, h); }
    if MayTake(fat, c, h) {
      if h == fat[c] {
        assert fat[c := h] == fat;
      } else if h == 0 {
        FreeStep(fat, c);
      } else if h >= |fat| {
        if fat[c] == 0 { AllocStep(fat, c, h); } else { CutStep(fat, c, h); }
      } else {
        RelinkStep(fat, c, h);
      }
    }
  }

  // ---------- counting free clusters ----------

  /** Number of zero entries among fat[lo..]. */
  ghost function FreeFrom(fat: seq<nat>, lo: nat): nat
    requires lo <= |fat|
    decreases |fat| - lo
  {
    if lo == |fat| then 0 else (if fat[lo] == 0 then 1 else 0) + FreeFrom(fat, lo + 1)
  }

  ghost function FreeCount(fat: seq<nat>): nat
    requires |fat| >= 2
  {
    FreeFrom(fat, 2)
  }

  lemma {:induction false} FreeFromUpdate(fat: seq<nat>, lo: nat, c: nat, v: nat)
    requires lo <= |fat| && c < |fat|
    ensures FreeFrom(fat[c := v], lo) == FreeFrom(fat, lo)
              + (if lo <= c && v == 0 then 1 else 0) - (if lo <= c && fat[c] == 0 then 1 else 0)
    decreases |fat| - lo
  {
    if lo < |fat| {
      FreeFromUpdate(fat, lo + 1, c, v);
    }
  }

  lemma {:induction false} FreeFromBounds(fat: seq<nat>, lo: nat)
    requires lo <= |fat|
    ensures FreeFrom(fat, lo) <= |fat| - lo
    ensures FreeFrom(fat, lo) == 0 <==> forall c :: lo <= c < |fat| ==> fat[c] != 0
    decreases |fat| - lo
  {
    if lo < |fat| {
      FreeFromBounds(fat, lo + 1);
    }
  }
}
