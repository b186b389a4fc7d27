/**
 The delimiter list as the source keeps it: delimiters linked both ways on the heap, relinked in place.
 The ghost sequence delims lists them from the bottom up.
 */
module DelimiterList {
  import opened Emphasis

  class Delimiter {
    const d: Delim
    var previous: Delimiter?
    var next: Delimiter?

    constructor (d: Delim, previous: Delimiter?)
      ensures this.d == d && this.previous == previous && next == null
    {
      this.d, this.previous, next := d, previous, null;
    }
  }

  function Values(ds: seq<Delimiter>): (vs: seq<Delim>)
    ensures |vs| == |ds| && forall i | 0 <= i < |ds| :: vs[i] == ds[i].d
  {
    seq(|ds|, i requires 0 <= i < |ds| => ds[i].d)
  }

  function PosAt(ds: seq<Delimiter>, i: nat): nat
    requires i < |ds|
  {
    ds[i].d.pos
  }

  ghost predicate Sorted(ds: seq<Delimiter>) {
    forall i, j | 0 <= i < j < |ds| :: PosAt(ds, i) < PosAt(ds, j)
  }

  lemma Distinct(ds: seq<Delimiter>)
    requires Sorted(ds)
    ensures forall i, j | 0 <= i < j < |ds| :: ds[i] != ds[j]
  {
    forall i, j | 0 <= i < j < |ds| ensures ds[i] != ds[j] {
      assert PosAt(ds, i) < PosAt(ds, j);
    }
  }

  ghost predicate Chained(ds: seq<Delimiter>)
    reads ds
  {
    && (forall k {:trigger ds[k].previous} | 0 <= k < |ds| :: ds[k].previous == if k == 0 then null else ds[k - 1])
    && (forall k {:trigger ds[k].next} | 0 <= k < |ds| :: ds[k].next == if k == |ds| - 1 then null else ds[k + 1])
  }

  // The list without the places from i up to j.
  function Cut<T>(ds: seq<T>, i: nat, j: nat): seq<T>
    requires i <= j <= |ds|
  {
    ds[..i] + ds[j..]
  }

  lemma CutTwice<T>(ds: seq<T>, i: nat, k: nat, j: nat)
    requires i <= k <= j <= |ds|
    ensures Cut(Cut(ds, k, j), i, k) == Cut(ds, i, j)
    ensures Cut(Cut(ds, i, k), i, i + j - k) == Cut(ds, i, j)
  {}

  lemma CutOne(ds: seq<Delimiter>, i: nat)
    requires i < |ds|
    ensures var es := Cut(ds, i, i + 1);
            && |es| == |ds| - 1
            && (forall x | x in es :: x in ds)
            && (|ds| > 1 ==> es[|ds| - 2] == if i == |ds| - 1 then ds[i - 1] else ds[|ds| - 1])
  {}

  class Stack {
    var last: Delimiter?
    ghost var delims: seq<Delimiter>
    ghost var repr: set<Delimiter>

    constructor ()
      ensures Linked() && delims == [] && repr == {}
    {
      last, delims, repr := null, [], {};
    }

    /** A proper doubly linked list with last as its tail, in the order of the input. */
    ghost predicate Linked()
      reads this, repr
    {
      && (forall x | x in delims :: x in repr)
      && (if delims == [] then last == null else last == delims[|delims| - 1])
      && Chained(delims)
      && Sorted(delims)
    }

    /** push_delimiter */
    method Push(d: Delim)
      requires Linked() && forall k | 0 <= k < |delims| :: delims[k].d.pos < d.pos
      modifies this, repr
      ensures Linked() && fresh(repr - old(repr))
      ensures |delims| == |old(delims)| + 1 && delims[..|old(delims)|] == old(delims)
      ensures last != null && fresh(last) && last == delims[|old(delims)|] && last.d == d
    {
      Distinct(delims);
      var delim := new Delimiter(d, last);
      if delim.previous != null {
        delim.previous.next := delim;
      }
      last := delim;
      ExtendedIsChained(delims, delim);
      delims := delims + [delim];
      repr := repr + {delim};
    }

    /** remove_delimiter, for the delimiter at place i of the list. */
    method Remove(delim: Delimiter?, ghost i: nat)
      requires Linked()
      requires delim != null ==> i < |delims| && delims[i] == delim
      modifies this, repr
      ensures Linked() && repr == old(repr)
      ensures delims == if delim == null then old(delims) else Cut(old(delims), i, i + 1)
    {
      if delim == null {
        return;
      }
      ghost var was := delims;
      delims := Cut(was, i, i + 1);
      Bridge(delim, was, i);
      BridgedIsChained(was, i);
      CutOne(was, i);
    }

    // The pointer part of remove_delimiter, for a list that is linked as was says.
    method Bridge(delim: Delimiter, ghost was: seq<Delimiter>, ghost i: nat)
      requires Chained(was) && Sorted(was) && i < |was| && was[i] == delim && last == was[|was| - 1]
      requires forall x | x in was :: x in repr
      modifies this`last, repr
      ensures Bridged(was, i)
      ensures last == if i + 1 < |was| then old(last) else if i == 0 then null else was[i - 1]
    {
      Distinct(was);
      assert was[i].next == if i == |was| - 1 then null else was[i + 1];
      assert was[i].previous == if i == 0 then null else was[i - 1];
      if delim.next == null {
        last := delim.previous;
      } else {
        delim.next.previous := delim.previous;
      }
      if delim.previous != null {
        delim.previous.next := delim.next;
      }
    }
  }

  // The links after delim was hung behind the last delimiter.
  lemma ExtendedIsChained(ds: seq<Delimiter>, delim: Delimiter)
    requires Sorted(ds) && forall k | 0 <= k < |ds| :: ds[k].d.pos < delim.d.pos
    requires forall k {:trigger ds[k].previous} | 0 <= k < |ds| :: ds[k].previous == if k == 0 then null else ds[k - 1]
    requires forall k {:trigger ds[k].next} | 0 <= k < |ds| :: ds[k].next == if k == |ds| - 1 then delim else ds[k + 1]
    requires delim.next == null && delim.previous == if ds == [] then null else ds[|ds| - 1]
    ensures Chained(ds + [delim]) && Sorted(ds + [delim])
  {
    var es := ds + [delim];
    forall k | 0 <= k < |es|
      ensures es[k].previous == if k == 0 then null else es[k - 1]
      ensures es[k].next == if k == |es| - 1 then null else es[k + 1]
    {
      if k < |ds| {
        assert es[k] == ds[k];
        var (p, n) := (ds[k].previous, ds[k].next);
      }
    }
    forall k, l | 0 <= k < l < |es| ensures PosAt(es, k) < PosAt(es, l) {
      assert l < |ds| ==> PosAt(ds, k) < PosAt(ds, l);
    }
  }

  // The links of the list without the delimiter at place i, read along the list with it.
  ghost predicate Bridged(ds: seq<Delimiter>, i: nat)
    requires i < |ds|
    reads ds
  {
    && (forall k {:trigger ds[k].previous} | 0 <= k < |ds| && k != i && k != i + 1 :: ds[k].previous == if k == 0 then null else ds[k - 1])
    && (i + 1 < |ds| ==> ds[i + 1].previous == if i == 0 then null else ds[i - 1])
    && (forall k {:trigger ds[k].next} | 0 <= k < |ds| && k != i && k != i - 1 :: ds[k].next == if k == |ds| - 1 then null else ds[k + 1])
    && (i > 0 ==> ds[i - 1].next == if i == |ds| - 1 then null else ds[i + 1])
  }

  lemma BridgedIsChained(ds: seq<Delimiter>, i: nat)
    requires i < |ds| && Bridged(ds, i) && Sorted(ds)
    ensures Chained(Cut(ds, i, i + 1)) && Sorted(Cut(ds, i, i + 1))
  {
    var es := Cut(ds, i, i + 1);
    forall k | 0 <= k < |es|
      ensures es[k].previous == if k == 0 then null else es[k - 1]
      ensures es[k].next == if k == |es| - 1 then null else es[k + 1]
    {
      var j := if k < i then k else k + 1;
      assert es[k] == ds[j];
      var (p, n) := (ds[j].previous, ds[j].next);
    }
    forall k, l | 0 <= k < l < |es| ensures PosAt(es, k) < PosAt(es, l) {
      assert PosAt(ds, if k < i then k else k + 1) < PosAt(ds, if l < i then l else l + 1);
    }
  }
}
