/** The index a plan looks keys up in is the B+ tree: what a lookup in the tree
    returns is what a plan's lookup stands for. */
module IndexTree {
  import opened Entries
  import opened BTreeScans
  import opened Plans
  import opened IndexLookup

  /** The contract of a tree lookup leaves one answer. */
  lemma LookupIsScanKey(entries: seq<Entry>, key: int, rids: seq<Rid>)
    requires Sorted(entries) && Sorted(Keyed(key, rids))
    requires forall r :: r in rids <==> Entry(key, r) in entries
    ensures rids == ScanKey(entries, key)
  {
    UnderSorted(entries, key);
    UnderMembers(entries, key);
    ScanKeyUnder(entries, key);
    forall e
      ensures e in Keyed(key, rids) <==> e in Under(entries, key)
    {
      if e in Under(entries, key) {
        assert Entry(key, e.rid) in entries && e.rid in rids;
        var i :| 0 <= i < |rids| && rids[i] == e.rid;
        assert Keyed(key, rids)[i] == e;
      }
    }
    SortedUnique(Keyed(key, rids), Under(entries, key));
    assert forall i :: 0 <= i < |rids| ==> rids[i] == Keyed(key, rids)[i].rid;
  }
}
