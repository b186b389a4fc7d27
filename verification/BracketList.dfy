/** The bracket stack as the source keeps it: entries linked downwards, flags updated in place. */
module BracketList {
  import opened Common
  import opened Emphasis
  import opened InlineParse
  import opened InlineRuns
  import opened DelimiterList

  class BracketEntry {
    const at: nat
    const image: bool
    const previous: BracketEntry?
    const previousDelimiter: Delimiter?
    ghost const depth: nat
    var active: bool
    var bracketAfter: bool

    constructor (at: nat, image: bool, previous: BracketEntry?, previousDelimiter: Delimiter?, ghost depth: nat)
      ensures this.at == at && this.image == image && this.previous == previous
      ensures this.previousDelimiter == previousDelimiter && this.depth == depth
      ensures active && !bracketAfter
    {
      this.at, this.image, this.previous, this.previousDelimiter := at, image, previous, previousDelimiter;
      this.depth := depth;
      active, bracketAfter := true, false;
    }

    function Value(): Bracket
      reads this
    {
      Bracket(at, image, active, bracketAfter, if previousDelimiter == null then None else Some(previousDelimiter.d.pos))
    }
  }

  function BracketValues(es: seq<BracketEntry>): (vs: seq<Bracket>)
    reads es
    ensures |vs| == |es| && forall k | 0 <= k < |es| :: vs[k] == es[k].Value()
  {
    seq(|es|, k requires 0 <= k < |es| reads es => es[k].Value())
  }

  function Deactivated(b: Bracket): Bracket {
    if b.image then b else b.(active := false)
  }

  // The walk down from the top has passed everything from place m up.
  ghost predicate Walked(vs: seq<Bracket>, now: seq<Bracket>, m: nat) {
    && m <= |vs| == |now|
    && (forall k | 0 <= k < m :: now[k] == vs[k])
    && (forall k | m <= k < |vs| :: now[k] == Deactivated(vs[k]) && (vs[k].image || vs[k].active))
  }

  lemma WalkOn(vs: seq<Bracket>, now: seq<Bracket>, m: nat)
    requires Walked(vs, now, m) && m > 0 && (vs[m - 1].image || vs[m - 1].active)
    ensures now[m - 1] == vs[m - 1] && Walked(vs, now[m - 1 := Deactivated(vs[m - 1])], m - 1)
  {}

  lemma {:induction false} WalkEnds(vs: seq<Bracket>, now: seq<Bracket>, m: nat)
    requires Walked(vs, now, m) && (m == 0 || (!vs[m - 1].image && !vs[m - 1].active))
    ensures now == DeactivateUntilInactive(vs)
  {
    if m < |vs| {
      var n := |vs| - 1;
      WalkEnds(vs[..n], now[..n], m);
      assert now == now[..n] + [now[n]];
    } else {
      assert now == vs;
    }
  }

  class Brackets {
    var last: BracketEntry?
    ghost var entries: seq<BracketEntry>
    ghost var repr: set<BracketEntry>

    constructor ()
      ensures Linked() && entries == [] && repr == {}
    {
      last, entries, repr := null, [], {};
    }

    ghost predicate Linked()
      reads this, repr
    {
      && (forall x | x in entries :: x in repr)
      && last == (if entries == [] then null else entries[|entries| - 1])
      && (forall k {:trigger entries[k].previous} | 0 <= k < |entries| ::
            entries[k].previous == if k == 0 then null else entries[k - 1])
      && (forall k {:trigger entries[k].depth} | 0 <= k < |entries| :: entries[k].depth == k)
    }

    // The stack as a value, bottom first.
    ghost function Contents(): seq<Bracket>
      requires Linked()
      reads this, repr
    {
      BracketValues(entries)
    }

    /** push_bracket: the entry below learns that a bracket came after it. */
    method Push(at: nat, image: bool, previousDelimiter: Delimiter?)
      requires Linked()
      modifies this, repr
      ensures Linked() && fresh(repr - old(repr))
      ensures Contents() == MarkAfter(old(Contents())) +
                [Bracket(at, image, true, false, if previousDelimiter == null then None else Some(previousDelimiter.d.pos))]
      ensures entries[..|entries| - 1] == old(entries) && entries[|entries| - 1].previousDelimiter == previousDelimiter
    {
      MarkLast();
      var b := new BracketEntry(at, image, last, previousDelimiter, |entries|);
      Link(b);
    }

    // Puts a new entry on top.
    method Link(b: BracketEntry)
      requires Linked() && b.previous == last && b.depth == |entries|
      modifies this
      ensures Linked() && repr == old(repr) + {b} && entries == old(entries) + [b]
      ensures Contents() == old(Contents()) + [b.Value()]
    {
      ghost var was := entries;
      entries := entries + [b];
      repr := repr + {b};
      last := b;
      assert forall k | 0 <= k < |was| :: entries[k] == was[k];
    }

    // The entry on top learns that a bracket came after it.
    method MarkLast()
      requires Linked()
      modifies repr
      ensures Linked() && Contents() == MarkAfter(old(Contents()))
    {
      if last != null {
        last.bracketAfter := true;
        assert entries[|entries| - 1].depth == |entries| - 1;
        assert forall k | 0 <= k < |entries| :: entries[k].depth == k;
      }
    }

    /** pop_bracket */
    method Pop()
      requires Linked()
      modifies this
      ensures Linked() && repr == old(repr)
      ensures entries == if old(entries) == [] then [] else old(entries)[..|old(entries)| - 1]
      ensures Contents() == if old(Contents()) == [] then [] else old(Contents())[..|old(Contents())| - 1]
    {
      if last == null {
        return;
      }
      ghost var n := |entries| - 1;
      assert entries[n].previous == if n == 0 then null else entries[n - 1];
      last := last.previous;
      entries := entries[..n];
      forall k | 0 <= k < n ensures entries[k].previous == (if k == 0 then null else entries[k - 1]) && entries[k].depth == k {
        assert entries[k] == old(entries)[k];
        var (p, d) := (old(entries)[k].previous, old(entries)[k].depth);
      }
    }

    // Clears the flag of the entry at place k.
    method Deactivate(b: BracketEntry, ghost k: nat)
      requires Linked() && k < |entries| && entries[k] == b
      modifies b
      ensures Linked() && Contents() == old(Contents())[k := old(Contents())[k].(active := false)]
    {
      b.active := false;
      assert forall i | 0 <= i < |entries| :: entries[i].depth == i;
    }

    /** The loop that deactivates earlier link openers once a link was made. */
    method DeactivateEarlier()
      requires Linked()
      modifies repr
      ensures Linked() && entries == old(entries) && repr == old(repr)
      ensures Contents() == DeactivateUntilInactive(old(Contents()))
    {
      ghost var vs := Contents();
      var opener := last;
      ghost var m: nat := |entries|;
      while opener != null
        invariant Linked() && entries == old(entries) && repr == old(repr)
        invariant m <= |entries| && opener == if m == 0 then null else entries[m - 1]
        invariant Walked(vs, Contents(), m)
        decreases m
      {
        ghost var now := Contents();
        assert opener.Value() == now[m - 1] == vs[m - 1];
        if !opener.image {
          if !opener.active {
            break;
          } else {
            Deactivate(opener, m - 1);
          }
        }
        assert Contents() == now[m - 1 := Deactivated(vs[m - 1])];
        WalkOn(vs, now, m);
        assert entries[m - 1].previous == if m == 1 then null else entries[m - 2];
        opener := opener.previous;
        m := m - 1;
      }
      WalkEnds(vs, Contents(), m);
    }
  }
}
