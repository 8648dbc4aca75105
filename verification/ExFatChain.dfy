/** exFAT cluster chains: how the object's status fields and the FAT together stand for a list of clusters. */
module ExFatChain {
  import opened Forest

  /** The allocation fields of FFOBJID. `stat`: 0 the FAT chain is valid, 2 contiguous and without a FAT chain,
      3 fragmented in this session. `nCont`: length of the first fragment minus one, valid when stat is 3.
      `nFrag`: length of the last fragment while its FAT entries are not written yet. */
  datatype Frag = Frag(sclust: nat, stat: nat, nCont: nat, nFrag: nat)

  /** Elements lo..hi of `ch` are consecutive cluster numbers. */
  ghost predicate Contiguous(ch: seq<nat>, lo: nat, hi: nat) {
    hi <= |ch| && forall i :: lo <= i < hi ==> ch[i] == ch[lo] + (i - lo)
  }

  ghost predicate DistinctClusters(fat: seq<nat>, ch: seq<nat>) {
    && (forall i :: 0 <= i < |ch| ==> 2 <= ch[i] < |fat|)
    && (forall i, j :: 0 <= i < j < |ch| ==> ch[i] != ch[j])
  }

  /** Element `i`'s link to its successor is implied by the status fields. */
  predicate Implied(o: Frag, m: nat, i: nat) {
    i + o.nFrag >= m || (o.stat == 3 && i < o.nCont)
  }

  /** The fields and the FAT determine all links of `ch`; nothing is said about its end. */
  ghost predicate Links(fat: seq<nat>, o: Frag, ch: seq<nat>) {
    && |ch| > 0 && o.sclust == ch[0] && DistinctClusters(fat, ch)
    && (o.stat == 0 || o.stat == 2 || o.stat == 3)
    && (o.stat == 2 ==> o.nFrag == 0 && Contiguous(ch, 0, |ch|))
    && o.nFrag <= |ch| && Contiguous(ch, |ch| - o.nFrag, |ch|)
    && (o.stat == 3 ==> o.nCont + 1 <= |ch| && Contiguous(ch, 0, o.nCont + 1))
    && (o.stat != 2 ==> forall i :: 0 <= i < |ch| - 1 && !Implied(o, |ch|, i) ==> fat[ch[i]] == ch[i + 1])
  }

  /** ... and unless the last fragment is still pending, the FAT marks the end of a chain that lives in the FAT. */
  ghost predicate Lazy(fat: seq<nat>, o: Frag, ch: seq<nat>) {
    Links(fat, o, ch) && (o.stat != 2 && o.nFrag == 0 ==> fat[ch[|ch| - 1]] >= |fat|)
  }

  /** Once both fragments are on the FAT, the FAT alone holds the chain. */
  lemma FlushedIsChain(fat: seq<nat>, o: Frag, ch: seq<nat>)
    requires Lazy(fat, o, ch) && o.stat == 0 && o.nFrag == 0
    ensures IsChain(fat, ch)
  {
    forall i | 0 <= i < |ch| - 1
      ensures fat[ch[i]] == ch[i + 1]
    {
      assert !Implied(o, |ch|, i);
    }
  }

  /** A contiguous chain is known from its first cluster and its length alone. */
  lemma ContiguousKnown(fat: seq<nat>, o: Frag, a: seq<nat>, b: seq<nat>)
    requires Lazy(fat, o, a) && Lazy(fat, o, b) && o.stat == 2 && |a| == |b|
    ensures a == b
  {
  }

  /** The fields and the FAT determine the clusters of an object with a given number of clusters. */
  lemma {:induction false} LazyUnique(fat: seq<nat>, o: Frag, a: seq<nat>, b: seq<nat>, k: nat)
    requires Lazy(fat, o, a) && Lazy(fat, o, b) && |a| == |b| && k < |a|
    ensures a[k] == b[k]
  {
    if o.stat == 2 {
      ContiguousKnown(fat, o, a, b);
    } else if k > 0 {
      LazyUnique(fat, o, a, b, k - 1);
      if Implied(o, |a|, k - 1) {
        LinkImplied(fat, o, a, k - 1);
        LinkImplied(fat, o, b, k - 1);
      } else {
        assert fat[a[k - 1]] == a[k] && fat[b[k - 1]] == b[k];
      }
    }
  }

  /** An implied link leads to the next cluster number. */
  lemma LinkImplied(fat: seq<nat>, o: Frag, ch: seq<nat>, i: nat)
    requires Links(fat, o, ch) && i + 1 < |ch| && (o.stat == 2 || Implied(o, |ch|, i))
    ensures ch[i + 1] == ch[i] + 1
  {
    if o.stat == 2 {
      assert ch[i] == ch[0] + i && ch[i + 1] == ch[0] + (i + 1);
    } else if i + o.nFrag >= |ch| {
      var lo := |ch| - o.nFrag;
      assert ch[i] == ch[lo] + (i - lo) && ch[i + 1] == ch[lo] + (i + 1 - lo);
    } else {
      assert ch[i] == ch[0] + i && ch[i + 1] == ch[0] + (i + 1);
    }
  }

  // ---------- fill_first_frag, fill_last_frag ----------

  /** One put_fat of fill_first_frag. */
  lemma FirstFragStep(fat: seq<nat>, o: Frag, ch: seq<nat>, i: nat)
    requires Lazy(fat, o, ch) && o.stat == 3 && i < o.nCont
    ensures i + 1 < |ch| && ch[i] == o.sclust + i && ch[i + 1] == o.sclust + i + 1
    ensures Lazy(fat[ch[i] := ch[i + 1]], o, ch)
  {
    var f := fat[ch[i] := ch[i + 1]];
    assert ch[i] == ch[0] + i && ch[i + 1] == ch[0] + (i + 1);
    forall j | 0 <= j < |ch| - 1 && !Implied(o, |ch|, j)
      ensures f[ch[j]] == ch[j + 1]
    {
      assert fat[ch[j]] == ch[j + 1];
    }
  }

  /** The FAT holds the link of element `i`. */
  ghost predicate LinkAt(fat: seq<nat>, ch: seq<nat>, i: nat) {
    i + 1 < |ch| && 2 <= ch[i] < |fat| && fat[ch[i]] == ch[i + 1]
  }

  /** Writing link `i` keeps the links written before. */
  lemma LinksWritten(fat: seq<nat>, o: Frag, ch: seq<nat>, i: nat)
    requires Lazy(fat, o, ch) && i + 1 < |ch| && forall j :: 0 <= j < i ==> LinkAt(fat, ch, j)
    ensures 2 <= ch[i] < |fat|
    ensures var f := fat[ch[i] := ch[i + 1]]; forall j :: 0 <= j <= i ==> LinkAt(f, ch, j)
  {
    var f := fat[ch[i] := ch[i + 1]];
    forall j | 0 <= j <= i
      ensures LinkAt(f, ch, j)
    {
      if j < i { assert LinkAt(fat, ch, j); }
    }
  }

  /** The end of fill_first_frag: with the first fragment written, the status becomes 0. */
  lemma FirstFragDone(fat: seq<nat>, o: Frag, ch: seq<nat>)
    requires Lazy(fat, o, ch) && o.stat == 3
    requires forall i :: 0 <= i < o.nCont ==> LinkAt(fat, ch, i)
    ensures Lazy(fat, o.(stat := 0), ch)
  {
    var o0 := o.(stat := 0);
    forall j | 0 <= j < |ch| - 1 && !Implied(o0, |ch|, j)
      ensures fat[ch[j]] == ch[j + 1]
    {
      if j < o.nCont { assert LinkAt(fat, ch, j); }
    }
  }

  /** One put_fat of fill_last_frag: the oldest pending entry gets its link, or the last one gets `term`. */
  lemma LastFragStep(fat: seq<nat>, o: Frag, ch: seq<nat>, term: nat)
    requires Links(fat, o, ch) && o.nFrag > 0
    ensures var lcl, j := ch[|ch| - 1], |ch| - o.nFrag;
      && ch[j] == lcl - o.nFrag + 1
      && (o.nFrag > 1 ==> j + 1 < |ch| && ch[j + 1] == lcl - o.nFrag + 2)
      && var v := if o.nFrag > 1 then ch[j + 1] else term;
         Links(fat[ch[j] := v], o.(nFrag := o.nFrag - 1), ch)
         && (o.nFrag == 1 ==> fat[ch[j] := v][lcl] == term)
  {
    var m := |ch|;
    var j := m - o.nFrag;
    assert ch[m - 1] == ch[j] + (m - 1 - j);
    if o.nFrag > 1 { assert ch[j + 1] == ch[j] + (j + 1 - j); }
    var v := if o.nFrag > 1 then ch[j + 1] else term;
    var f, p := fat[ch[j] := v], o.(nFrag := o.nFrag - 1);
    forall i | j + 1 <= i < m
      ensures ch[i] == ch[j + 1] + (i - (j + 1))
    {
      assert ch[i] == ch[j] + (i - j) && ch[j + 1] == ch[j] + (j + 1 - j);
    }
    forall i | 0 <= i < m - 1 && !Implied(p, m, i) && o.stat != 2
      ensures f[ch[i]] == ch[i + 1]
    {
      if i != j {
        assert !Implied(o, m, i);
        assert fat[ch[i]] == ch[i + 1];
      }
    }
  }

  // ---------- create_chain ----------

  /** A chain of one cluster: contiguous. */
  lemma NewChain(fat: seq<nat>, c: nat, n: nat)
    requires 2 <= c < |fat|
    ensures Lazy(fat, Frag(c, 2, n, 0), [c])
  {
  }

  ghost predicate Appendable(fat: seq<nat>, ch: seq<nat>, c: nat) {
    |ch| > 0 && 2 <= c < |fat| && c !in ch
  }

  lemma AppendDistinct(fat: seq<nat>, ch: seq<nat>, c: nat)
    requires DistinctClusters(fat, ch) && Appendable(fat, ch, c)
    ensures DistinctClusters(fat, ch + [c])
  {
  }

  lemma AppendContiguous(ch: seq<nat>, lo: nat, c: nat)
    requires lo < |ch| && Contiguous(ch, lo, |ch|) && c == ch[|ch| - 1] + 1
    ensures Contiguous(ch + [c], lo, |ch| + 1)
  {
    assert ch[|ch| - 1] == ch[lo] + (|ch| - 1 - lo);
  }

  /** A contiguous chain that stays contiguous. */
  lemma StretchContiguous(fat: seq<nat>, o: Frag, ch: seq<nat>, c: nat)
    requires Lazy(fat, o, ch) && o.stat == 2 && Appendable(fat, ch, c) && c == ch[|ch| - 1] + 1
    ensures Lazy(fat, o, ch + [c])
  {
    AppendDistinct(fat, ch, c);
    AppendContiguous(ch, 0, c);
  }

  /** A fragmented chain whose last fragment grows. */
  lemma StretchFragment(fat: seq<nat>, o: Frag, ch: seq<nat>, c: nat)
    requires Lazy(fat, o, ch) && o.stat != 2 && Appendable(fat, ch, c) && c == ch[|ch| - 1] + 1
    ensures Lazy(fat, o.(nFrag := if o.nFrag > 0 then o.nFrag + 1 else 2), ch + [c])
  {
    var m, d := |ch|, ch + [c];
    var p := o.(nFrag := if o.nFrag > 0 then o.nFrag + 1 else 2);
    AppendDistinct(fat, ch, c);
    AppendContiguous(ch, if o.nFrag > 0 then m - o.nFrag else m - 1, c);
    forall i | 0 <= i < m && !Implied(p, m + 1, i)
      ensures fat[d[i]] == d[i + 1]
    {
      assert !Implied(o, m, i);
      assert fat[ch[i]] == ch[i + 1];
    }
  }

  /** The moment a contiguous chain gets fragmented: its whole length becomes the first fragment. */
  lemma BecomeFragmented(fat: seq<nat>, o: Frag, ch: seq<nat>)
    requires Lazy(fat, o, ch) && o.stat == 2
    ensures ch[|ch| - 1] == o.sclust + (|ch| - 1)
    ensures Links(fat, o.(stat := 3, nCont := |ch| - 1), ch)
  {
    assert ch[|ch| - 1] == ch[0] + (|ch| - 1 - 0);
  }

  /** At least the last cluster is pending. */
  lemma PendLast(fat: seq<nat>, o: Frag, ch: seq<nat>)
    requires Links(fat, o, ch) && o.stat != 2 && o.nFrag == 0
    ensures Lazy(fat, o.(nFrag := 1), ch)
  {
    var p := o.(nFrag := 1);
    forall i | 0 <= i < |ch| - 1 && !Implied(p, |ch|, i)
      ensures fat[ch[i]] == ch[i + 1]
    {
      assert !Implied(o, |ch|, i);
    }
  }

  /** All entries up to the end written, the last one linked to a new fragment of one cluster. */
  lemma StretchNewFragment(fat: seq<nat>, o: Frag, ch: seq<nat>, c: nat)
    requires Links(fat, o, ch) && o.stat != 2 && o.nFrag == 0 && Appendable(fat, ch, c) && fat[ch[|ch| - 1]] == c
    ensures Lazy(fat, o.(nFrag := 1), ch + [c])
  {
    var m, d := |ch|, ch + [c];
    var p := o.(nFrag := 1);
    AppendDistinct(fat, ch, c);
    forall i | 0 <= i < m && !Implied(p, m + 1, i)
      ensures fat[d[i]] == d[i + 1]
    {
      if i < m - 1 {
        assert !Implied(o, m, i);
        assert fat[ch[i]] == ch[i + 1];
      }
    }
  }

  // ---------- get_fat ----------

  /** What exFAT get_fat answers for cluster `c` of an object of `clen + 1` clusters, `raw` being the FAT entry. */
  function Answer(o: Frag, c: nat, clen: nat, raw: nat): nat {
    if o.stat == 2 then
      (if o.sclust <= c <= o.sclust + clen then (if c == o.sclust + clen then 0x7FFF_FFFF else c + 1) else 1)
    else if o.stat == 3 && o.sclust <= c < o.sclust + o.nCont then c + 1
    else if o.nFrag != 0 then 0x7FFF_FFFF
    else raw
  }

  /** With nothing pending, get_fat walks the clusters of the object; at the last one it reports the end, pending or
      not. */
  lemma AnswerFollows(fat: seq<nat>, o: Frag, ch: seq<nat>, i: nat)
    requires Lazy(fat, o, ch) && i < |ch| && |fat| <= 0x7FFF_FFFF
    ensures i == |ch| - 1 ==> Answer(o, ch[i], |ch| - 1, fat[ch[i]]) >= |fat|
    ensures i + 1 < |ch| && o.nFrag == 0 ==> Answer(o, ch[i], |ch| - 1, fat[ch[i]]) == ch[i + 1]
  {
    if o.stat == 2 {
      assert ch[i] == ch[0] + (i - 0);
      if i + 1 < |ch| { assert ch[i + 1] == ch[0] + (i + 1 - 0); }
    } else if o.stat == 3 {
      if i <= o.nCont { assert ch[i] == ch[0] + (i - 0); }
      if i + 1 <= o.nCont { assert ch[i + 1] == ch[0] + (i + 1 - 0); }
      if o.sclust <= ch[i] < o.sclust + o.nCont {
        var j := ch[i] - o.sclust;
        assert ch[j] == ch[0] + (j - 0);
        assert ch[j] == ch[i];
      }
    }
    if i + 1 < |ch| && o.nFrag == 0 && !Implied(o, |ch|, i) && o.stat != 2 {
      assert fat[ch[i]] == ch[i + 1];
    }
  }

  /** Inside the object the answer is the next cluster exactly if nothing is pending or the link belongs to the first
      fragment: create_chain and f_lseek may only ask at the growing edge, or after fill_last_frag. */
  lemma AnswerExact(fat: seq<nat>, o: Frag, ch: seq<nat>, i: nat)
    requires Lazy(fat, o, ch) && i + 1 < |ch| && |fat| <= 0x7FFF_FFFF
    ensures Answer(o, ch[i], |ch| - 1, fat[ch[i]]) == ch[i + 1] <==> o.nFrag == 0 || (o.stat == 3 && i < o.nCont)
  {
    if o.nFrag == 0 {
      AnswerFollows(fat, o, ch, i);
    } else if o.stat == 3 {
      if i < o.nCont { assert ch[i] == ch[0] + (i - 0) && ch[i + 1] == ch[0] + (i + 1 - 0); }
      if o.sclust <= ch[i] < o.sclust + o.nCont {
        var j := ch[i] - o.sclust;
        assert ch[j] == ch[0] + (j - 0);
        assert ch[j] == ch[i];
      }
    }
  }

  // ---------- other objects ----------

  /** The links of an object depend on the FAT entries of its own clusters only. */
  lemma LazyFrame(a: seq<nat>, b: seq<nat>, o: Frag, ch: seq<nat>)
    requires Lazy(a, o, ch) && |a| == |b| && forall i :: 0 <= i < |ch| ==> b[ch[i]] == a[ch[i]]
    ensures Lazy(b, o, ch)
  {
    assert b[ch[|ch| - 1]] == a[ch[|ch| - 1]];
    forall i | 0 <= i < |ch| - 1 && !Implied(o, |ch|, i) && o.stat != 2
      ensures b[ch[i]] == ch[i + 1]
    {
      assert a[ch[i]] == ch[i + 1];
    }
  }

  /** Only entries of the clusters `ch` changed. */
  ghost predicate OutsideKept(a: seq<nat>, b: seq<nat>, ch: seq<nat>) {
    |b| == |a| && forall d :: 0 <= d < |a| && d !in ch ==> b[d] == a[d]
  }

  // ---------- the allocation bitmap ----------

  /** All clusters of `ch` are marked in the bitmap (bit b stands for cluster b + 2). */
  ghost predicate InUse(bits: seq<bool>, ch: seq<nat>) {
    forall i :: 0 <= i < |ch| ==> 2 <= ch[i] < |bits| + 2 && bits[ch[i] - 2]
  }

  /** Number of free clusters. */
  ghost function FreeBits(bits: seq<bool>): nat {
    if |bits| == 0 then 0 else FreeBits(bits[..|bits| - 1]) + if bits[|bits| - 1] then 0 else 1
  }

  /** free_clst is unknown (out of range) or the number of clear bits. */
  ghost predicate BitsKnown(bits: seq<bool>, freeClst: nat) {
    freeClst <= |bits| ==> freeClst == FreeBits(bits)
  }

  ghost predicate NoFreeBit(bits: seq<bool>) {
    forall b :: 0 <= b < |bits| ==> bits[b]
  }

  lemma {:induction false} FreeBitsUpdate(bits: seq<bool>, b: nat, v: bool)
    requires b < |bits|
    ensures FreeBits(bits[b := v]) == FreeBits(bits) + (if v then 0 else 1) - (if bits[b] then 0 else 1)
  {
    var n := |bits| - 1;
    if b < n {
      FreeBitsUpdate(bits[..n], b, v);
      assert bits[b := v][..n] == bits[..n][b := v];
    } else {
      assert bits[b := v][..n] == bits[..n];
    }
  }

  lemma {:induction false} FreeBitsBounds(bits: seq<bool>)
    ensures FreeBits(bits) <= |bits|
    ensures FreeBits(bits) == 0 <==> NoFreeBit(bits)
  {
    if |bits| > 0 {
      var n := |bits| - 1;
      FreeBitsBounds(bits[..n]);
      if NoFreeBit(bits[..n]) && bits[n] {
        forall b | 0 <= b < |bits|
          ensures bits[b]
        {
          if b < n { assert bits[..n][b]; }
        }
      }
      if NoFreeBit(bits) {
        forall b | 0 <= b < n
          ensures bits[..n][b]
        {
          assert bits[b];
        }
      }
    }
  }
}
