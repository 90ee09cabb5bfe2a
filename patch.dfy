/** Patches: the delta messages the registry pushes to services, and the
    per-name filtering that decides what one consumer gets to see. */
module Patches {

  /** One fact about one service's availability: its name and its URL. */
  datatype PatchEntry = PatchEntry(name: string, url: string)

  /** A delta message: services that became available and services that went away,
      each list in the order it was collected. */
  datatype Patch = Patch(added: seq<PatchEntry>, removed: seq<PatchEntry>)

  /** A patch with nothing in it is never worth sending to a consumer. */
  predicate IsEmpty(p: Patch) {
    p.added == [] && p.removed == []
  }

  /** The entries of `entries` named `n`, in their original order. */
  function FilterByName(entries: seq<PatchEntry>, n: string): (r: seq<PatchEntry>)
    ensures |r| <= |entries|
  {
    if entries == [] then []
    else (if entries[0].name == n then [entries[0]] else []) + FilterByName(entries[1..], n)
  }

  /** The part of `full` that a consumer interested in the name `n` receives. */
  function ConsumerPatch(full: Patch, n: string): (p: Patch)
    ensures |p.added| <= |full.added| && |p.removed| <= |full.removed|
  {
    Patch(FilterByName(full.added, n), FilterByName(full.removed, n))
  }

  /** An entry survives the filter exactly when it was there and carries the name. */
  lemma {:induction false} FilterByNameMembers(entries: seq<PatchEntry>, n: string, e: PatchEntry)
    ensures e in FilterByName(entries, n) <==> e in entries && e.name == n
  {
    if entries != [] {
      FilterByNameMembers(entries[1..], n, e);
      assert e in entries <==> e == entries[0] || e in entries[1..];
    }
  }

  /** A consumer's patch for `n` is empty exactly when no entry of the full patch,
      added or removed, carries the name `n`; whatever it holds carries that name. */
  lemma ConsumerPatchEmpty(full: Patch, n: string)
    ensures forall e :: e in ConsumerPatch(full, n).added ==> e in full.added && e.name == n
    ensures forall e :: e in ConsumerPatch(full, n).removed ==> e in full.removed && e.name == n
    ensures IsEmpty(ConsumerPatch(full, n))
        <==> (forall e :: e in full.added ==> e.name != n) && (forall e :: e in full.removed ==> e.name != n)
  {
    forall e | e in full.added || e in ConsumerPatch(full, n).added
      ensures e in ConsumerPatch(full, n).added <==> e in full.added && e.name == n
    {
      FilterByNameMembers(full.added, n, e);
    }
    forall e | e in full.removed || e in ConsumerPatch(full, n).removed
      ensures e in ConsumerPatch(full, n).removed <==> e in full.removed && e.name == n
    {
      FilterByNameMembers(full.removed, n, e);
    }
    var p := ConsumerPatch(full, n);
    if !IsEmpty(p) {
      if p.added != [] {
        assert p.added[0] in p.added;
      } else {
        assert p.removed[0] in p.removed;
      }
    }
  }

  /** Filtering distributes over concatenation: order is kept and
      no entry of one part moves into the other. */
  lemma {:induction false} FilterByNameAppend(a: seq<PatchEntry>, b: seq<PatchEntry>, n: string)
    ensures FilterByName(a + b, n) == FilterByName(a, n) + FilterByName(b, n)
  {
    if a == [] {
      assert a + b == b;
    } else {
      var head := if a[0].name == n then [a[0]] else [];
      assert (a + b)[0] == a[0] && (a + b)[1..] == a[1..] + b;
      FilterByNameAppend(a[1..], b, n);
      calc {
        FilterByName(a + b, n);
        head + FilterByName(a[1..] + b, n);
        head + (FilterByName(a[1..], n) + FilterByName(b, n));
        (head + FilterByName(a[1..], n)) + FilterByName(b, n);
      }
    }
  }

  /** Filtering keeps every entry named `n` as often as it occurs, and nothing else. */
  lemma {:induction false} FilterByNameCount(entries: seq<PatchEntry>, n: string, e: PatchEntry)
    ensures multiset(FilterByName(entries, n))[e] == if e.name == n then multiset(entries)[e] else 0
  {
    if entries != [] {
      assert entries == [entries[0]] + entries[1..];
      FilterByNameCount(entries[1..], n, e);
    }
  }

  /** Unfolding the filter at position `k` of `entries`. */
  lemma FilterByNameStep(entries: seq<PatchEntry>, k: nat, n: string)
    requires k < |entries|
    ensures FilterByName(entries[k..], n)
         == (if entries[k].name == n then [entries[k]] else []) + FilterByName(entries[k + 1..], n)
  {
  }

  /** One of the two collecting loops of the per-consumer notification: it picks the
      entries named `n` and raises the flag that says the patch must be sent. */
  method CollectByName(entries: seq<PatchEntry>, n: string) returns (picked: seq<PatchEntry>, found: bool)
    ensures picked == FilterByName(entries, n)
    ensures found <==> picked != []
  {
    picked, found := [], false;
    for k := 0 to |entries|
      invariant picked + FilterByName(entries[k..], n) == FilterByName(entries, n)
      invariant found <==> picked != []
    {
      FilterByNameStep(entries, k, n);
      if entries[k].name == n {
        picked := picked + [entries[k]];
        found := true;
      }
    }
  }
}
