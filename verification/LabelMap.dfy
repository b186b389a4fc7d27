/** The reference map of map.c and references.c: sorted on first use, deduplicated in place, searched by halving. */
module LabelMap {

  import opened Common

  datatype Entry = Entry(name: string, age: nat, url: string)

  // ---------- the order of the labels ----------

  // strcmp, on labels without NUL: negative, zero or positive.
  function Compare(a: string, b: string): (r: int)
    ensures r == 0 <==> a == b
    decreases |a|
  {
    if a == "" then (if b == "" then 0 else -1)
    else if b == "" then 1
    else if a[0] != b[0] then a[0] as int - b[0] as int
    else
      assert a == [a[0]] + a[1..] && b == [b[0]] + b[1..];
      Compare(a[1..], b[1..])
  }

  lemma {:induction false} CompareFlips(a: string, b: string)
    ensures Compare(a, b) < 0 <==> Compare(b, a) > 0
    decreases |a|
  {
    if a != "" && b != "" && a[0] == b[0] {
      CompareFlips(a[1..], b[1..]);
    }
  }

  lemma {:induction false} CompareChains(a: string, b: string, c: string)
    requires Compare(a, b) <= 0 && Compare(b, c) <= 0
    ensures Compare(a, c) <= 0
    ensures Compare(a, b) < 0 || Compare(b, c) < 0 ==> Compare(a, c) < 0
    decreases |a|
  {
    if a != "" && b != "" && c != "" && a[0] == b[0] == c[0] {
      CompareChains(a[1..], b[1..], c[1..]);
    }
  }

  // refcmp: by label, then by age
  function RefCompare(a: Entry, b: Entry): int {
    var res := Compare(a.name, b.name);
    if res != 0 then res else a.age - b.age
  }

  // ---------- sorting and removing duplicates, on values ----------

  // What qsort promises with refcmp.
  predicate Sorted(s: seq<Entry>) {
    forall k :: 0 <= k < |s| - 1 ==> RefCompare(s[k], s[k + 1]) <= 0
  }

  // The labels rise strictly.
  predicate Rising(s: seq<Entry>) {
    forall k :: 0 <= k < |s| - 1 ==> Compare(s[k].name, s[k + 1].name) < 0
  }

  // Each entry whose label differs from the one kept last.
  function Deduped(s: seq<Entry>): (r: seq<Entry>)
    ensures s != [] ==> r != [] && |r| <= |s|
  {
    if |s| <= 1 then s
    else
      var (r, e) := (Deduped(s[..|s| - 1]), s[|s| - 1]);
      if Compare(e.name, r[|r| - 1].name) != 0 then r + [e] else r
  }

  // e is the oldest entry with its label.
  ghost predicate Oldest(e: Entry, s: seq<Entry>) {
    e in s && forall f <- s :: f.name == e.name ==> e.age <= f.age
  }

  lemma {:induction false} SortedEnds(s: seq<Entry>, k: nat)
    requires Sorted(s) && k < |s|
    ensures RefCompare(s[k], s[|s| - 1]) <= 0
    decreases |s| - k
  {
    if k + 1 < |s| {
      SortedEnds(s, k + 1);
      CompareChains(s[k].name, s[k + 1].name, s[|s| - 1].name);
    }
  }

  lemma {:induction false} RisingEnds(s: seq<Entry>, i: nat, j: nat)
    requires Rising(s) && i < j < |s|
    ensures Compare(s[i].name, s[j].name) < 0
    decreases j - i
  {
    if i + 1 < j {
      RisingEnds(s, i + 1, j);
      CompareChains(s[i].name, s[i + 1].name, s[j].name);
    }
  }

  ghost predicate Named(s: seq<Entry>, name: string) {
    exists k :: 0 <= k < |s| && s[k].name == name
  }

  // The last entry is not before any other.
  lemma LastIsGreatest(s: seq<Entry>, e: Entry)
    requires Sorted(s) && s != [] && e in s
    ensures RefCompare(e, s[|s| - 1]) <= 0
  {
    var k :| 0 <= k < |s| && s[k] == e;
    SortedEnds(s, k);
  }

  /** What is left rises strictly, so no label is left twice. */
  lemma {:induction false} DedupedRises(s: seq<Entry>)
    requires Sorted(s)
    ensures Rising(Deduped(s))
    ensures s != [] ==> Deduped(s)[|Deduped(s)| - 1].name == s[|s| - 1].name
    decreases |s|
  {
    if |s| > 1 {
      var (front, last) := (s[..|s| - 1], s[|s| - 1]);
      DedupedRises(front);
      var r := Deduped(front);
      assert RefCompare(s[|s| - 2], last) <= 0 && r[|r| - 1].name == s[|s| - 2].name;
      CompareFlips(last.name, r[|r| - 1].name);
    }
  }

  /** Every label is left. */
  lemma {:induction false} DedupedNames(s: seq<Entry>, e: Entry)
    requires Sorted(s) && e in s
    ensures Named(Deduped(s), e.name)
    decreases |s|
  {
    if |s| == 1 {
      assert Deduped(s)[0].name == e.name;
    } else {
      var (front, all) := (s[..|s| - 1], Deduped(s));
      DedupedRises(s);
      if e == s[|s| - 1] {
        assert all[|all| - 1].name == e.name;
      } else {
        assert s == front + [s[|s| - 1]];
        DedupedNames(front, e);
        var k :| 0 <= k < |Deduped(front)| && Deduped(front)[k].name == e.name;
        assert all[k].name == e.name;
      }
    }
  }

  /** Of each label the oldest entry is left. */
  lemma {:induction false} DedupedKeepsOldest(s: seq<Entry>, e: Entry)
    requires Sorted(s) && e in Deduped(s)
    ensures Oldest(e, s)
    decreases |s|
  {
    if |s| > 1 {
      var (front, last) := (s[..|s| - 1], s[|s| - 1]);
      assert s == front + [last] && front[|front| - 1] == s[|s| - 2];
      if e in Deduped(front) {
        DedupedKeepsOldest(front, e);
        LastIsGreatest(s, e);
      } else {
        DedupedRises(front);
        assert RefCompare(s[|s| - 2], last) <= 0;
        NoneNamed(front, last);
      }
    }
  }

  // An entry behind all others with a label unlike the last has a new label.
  lemma NoneNamed(front: seq<Entry>, last: Entry)
    requires front != [] && Sorted(front) && RefCompare(front[|front| - 1], last) <= 0 && last.name != front[|front| - 1].name
    ensures forall e <- front :: e.name != last.name
  {
    forall e | e in front ensures e.name != last.name {
      LastIsGreatest(front, e);
      CompareChains(e.name, front[|front| - 1].name, last.name);
    }
  }

  // ---------- the map ----------

  // What the C library's qsort promises for refcmp.
  ghost predicate Sorts(qsort: seq<Entry> -> seq<Entry>) {
    forall s :: Sorted(qsort(s)) && multiset(qsort(s)) == multiset(s)
  }

  /** The first definition of a name wins (section 4.7 of the GitHub Flavored Markdown Spec): the plain search in order. */
  function FirstDefinition(definitions: seq<Entry>, name: string): (r: Option<Entry>)
    ensures r.Some? ==> r.value in definitions && r.value.name == name
    ensures r.None? ==> forall e <- definitions :: e.name != name
    decreases |definitions|
  {
    if definitions == [] then None
    else if definitions[0].name == name then Some(definitions[0])
    else
      var r := FirstDefinition(definitions[1..], name);
      assert definitions == [definitions[0]] + definitions[1..];
      r
  }

  // Entries in the order of their creation.
  ghost predicate Aged(definitions: seq<Entry>) {
    forall k :: 0 <= k < |definitions| ==> definitions[k].age == k
  }

  lemma {:induction false} FirstIsOldest(definitions: seq<Entry>, from: nat, e: Entry)
    requires Aged(definitions) && from <= |definitions| && Oldest(e, definitions) && from <= e.age
    ensures FirstDefinition(definitions[from..], e.name) == Some(e)
    decreases |definitions| - from
  {
    var k :| 0 <= k < |definitions| && definitions[k] == e;
    if from < k {
      assert definitions[from] in definitions;
      FirstIsOldest(definitions, from + 1, e);
      assert definitions[from..][1..] == definitions[from + 1..];
    }
  }

  /** Halving the sorted, deduplicated entries finds what the plain search in definition order finds. */
  lemma FoundIsFirst(definitions: seq<Entry>, s: seq<Entry>, name: string)
    requires Aged(definitions) && Sorted(s) && multiset(s) == multiset(definitions)
    ensures forall e <- Deduped(s) :: e.name == name ==> FirstDefinition(definitions, name) == Some(e)
    ensures !Named(Deduped(s), name) ==> FirstDefinition(definitions, name) == None
  {
    forall e | e in Deduped(s) && e.name == name ensures FirstDefinition(definitions, name) == Some(e) {
      DedupedKeepsOldest(s, e);
      SameMembers(s, definitions, e);
      forall f | f in definitions && f.name == name ensures e.age <= f.age {
        SameMembers(s, definitions, f);
      }
      FirstIsOldest(definitions, 0, e);
      assert definitions[0..] == definitions;
    }
    var first := FirstDefinition(definitions, name);
    if first.Some? {
      SameMembers(s, definitions, first.value);
      DedupedNames(s, first.value);
    }
  }

  lemma SameMembers(s: seq<Entry>, t: seq<Entry>, e: Entry)
    requires multiset(s) == multiset(t)
    ensures e in s <==> e in t
  {
    assert e in multiset(s) <==> e in multiset(t);
  }

  function Reversed(s: seq<Entry>): (r: seq<Entry>)
    ensures |r| == |s|
  {
    if s == [] then [] else Reversed(s[1..]) + [s[0]]
  }

  lemma {:induction false} ReversedMembers(s: seq<Entry>)
    ensures multiset(Reversed(s)) == multiset(s)
    decreases |s|
  {
    if s != [] {
      ReversedMembers(s[1..]);
      assert s == [s[0]] + s[1..];
    }
  }

  const MAX_LINK_LABEL_LENGTH: nat := 1000

  lemma DedupedNext(s: seq<Entry>, i: nat, r: seq<Entry>)
    requires 0 < i < |s| && r == Deduped(s[..i])
    ensures Deduped(s[..i + 1]) == if Compare(s[i].name, r[|r| - 1].name) != 0 then r + [s[i]] else r
  {
    assert s[..i + 1][..i] == s[..i];
  }

  /** The loop of sort_map: the entries kept move to the front of the array. */
  method Compact(entries: array<Entry>) returns (kept: nat)
    requires entries.Length > 0
    modifies entries
    ensures 0 < kept <= entries.Length
    ensures entries[..kept] == Deduped(old(entries[..]))
  {
    ghost var order := entries[..];
    var last := 0;
    var i := 1;
    assert order[..1] == [order[0]];
    while i < entries.Length
      invariant last < i <= entries.Length == |order|
      invariant entries[..last + 1] == Deduped(order[..i])
      invariant forall k :: i <= k < |order| ==> entries[k] == order[k]
    {
      DedupedNext(order, i, entries[..last + 1]);
      if Compare(entries[i].name, entries[last].name) != 0 {
        ghost var front := entries[..last + 1];
        last := last + 1;
        entries[last] := entries[i];
        assert entries[..last + 1] == front + [order[i]];
      }
      i := i + 1;
    }
    assert order[..entries.Length] == order;
    kept := last + 1;
  }

  class Map {
    const qsort: seq<Entry> -> seq<Entry>
    // trimming, collapsing and case folding; empty for a label of nothing but whitespace
    const normalize: string -> string
    // newest first
    var refs: seq<Entry>
    var size: nat
    var sorted: array?<Entry>

    // The entries in the order of their definition.
    function Definitions(): seq<Entry>
      reads this`refs
    {
      Reversed(refs)
    }

    ghost predicate Valid()
      reads this, sorted
    {
      && Sorts(qsort) && Aged(Definitions())
      && (sorted == null ==> size == |refs|)
      && (sorted != null ==> size <= sorted.Length && sorted[..size] == Deduped(qsort(refs)))
      && (size == 0 <==> refs == [])
    }

    constructor (qsort: seq<Entry> -> seq<Entry>, normalize: string -> string)
      requires Sorts(qsort)
      ensures Valid() && sorted == null && refs == [] && this.qsort == qsort && this.normalize == normalize
    {
      this.qsort, this.normalize := qsort, normalize;
      refs, size, sorted := [], 0, null;
    }

    /** cmark_reference_create: a definition is added last in age, unless its label is empty. */
    method Create(text: string, url: string)
      requires Valid() && sorted == null
      modifies this
      ensures Valid() && sorted == null
      ensures Definitions() == old(Definitions()) + if normalize(text) == "" then [] else [Entry(normalize(text), |old(refs)|, url)]
    {
      var name := normalize(text);
      if name == "" {
        return;
      }
      refs := [Entry(name, size, url)] + refs;
      size := size + 1;
      assert refs[1..] == old(refs);
    }

    // sort_map
    method SortMap()
      requires Valid() && sorted == null && size > 0
      modifies this`size, this`sorted
      ensures Valid() && sorted != null && fresh(sorted)
    {
      var order := qsort(refs);
      SameLength(order, refs);
      var entries := new Entry[size](k requires 0 <= k < |order| => order[k]);
      assert entries[..] == order;
      var kept := Compact(entries);
      sorted := entries;
      size := kept;
    }

    // The C library's bsearch, with refsearch.
    method Search(name: string) returns (found: Option<Entry>)
      requires Valid() && sorted != null
      ensures found.Some? ==> found.value in sorted[..size] && found.value.name == name
      ensures found.None? ==> !Named(sorted[..size], name)
    {
      var (lo, hi) := (0, size);
      var entries := sorted;
      ghost var s := sorted[..size];
      DedupedRises(qsort(refs));
      while lo < hi
        invariant 0 <= lo <= hi <= |s| == size <= entries.Length && entries[..size] == s
        invariant forall k :: 0 <= k < size && s[k].name == name ==> lo <= k < hi
      {
        var mid := (lo + hi) / 2;
        var res := Compare(name, entries[mid].name);
        assert entries[mid] == s[mid];
        if res == 0 {
          return Some(entries[mid]);
        }
        forall k | 0 <= k < size && s[k].name == name ensures if res < 0 then k < mid else mid < k {
          SideOf(s, mid, k);
        }
        if res < 0 {
          hi := mid;
        } else {
          lo := mid + 1;
        }
      }
      return None;
    }

    /** cmark_map_lookup agrees with the plain search for the first definition, on every call. */
    method Lookup(text: string) returns (found: Option<Entry>)
      requires Valid()
      modifies this`size, this`sorted
      ensures Valid()
      ensures found == if |text| < 1 || |text| > MAX_LINK_LABEL_LENGTH || normalize(text) == "" then None
                       else FirstDefinition(Definitions(), normalize(text))
    {
      if |text| < 1 || |text| > MAX_LINK_LABEL_LENGTH {
        return None;
      }
      if size == 0 {
        return None;
      }
      var name := normalize(text);
      if name == "" {
        return None;
      }
      if sorted == null {
        SortMap();
      }
      found := Search(name);
      ReversedMembers(refs);
      FoundIsFirst(Definitions(), qsort(refs), name);
    }
  }

  // In a rising sequence a name lies on the side of mid that the comparison says.
  lemma SideOf(s: seq<Entry>, mid: nat, k: nat)
    requires Rising(s) && mid < |s| && k < |s| && Compare(s[k].name, s[mid].name) != 0
    ensures if Compare(s[k].name, s[mid].name) < 0 then k < mid else mid < k
  {
    CompareFlips(s[k].name, s[mid].name);
    if k < mid {
      RisingEnds(s, k, mid);
    } else if mid < k {
      RisingEnds(s, mid, k);
      CompareFlips(s[mid].name, s[k].name);
    }
  }

  lemma SameLength(s: seq<Entry>, t: seq<Entry>)
    requires multiset(s) == multiset(t)
    ensures |s| == |t|
  {
    assert |multiset(s)| == |multiset(t)|;
  }
}
