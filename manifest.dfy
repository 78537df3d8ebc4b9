/** The concat list `segmentlist.txt` (vtrim.py:74-86): every file of the
    temporary directory, in sorted order, becomes one line naming its
    resolved path, or an empty line when `ffprobe` rejects it. */
module Manifest {
  import opened Text
  import opened SilenceLog
  import opened VideoSegments

  /** `path.resolve()` rendered with `str`, as a function of the path. */
  type Resolver = string -> string

  /** Whether `ffprobe` exits with status 0 on the resolved file name. */
  type Prober = string -> bool

  const Newline: char := '\n'

  /** `getListEntry` */
  function ListEntry(path: string, resolve: Resolver, probe: Prober): string {
    var filename := resolve(path);
    if probe(filename) then "file '" + filename + "'" else ""
  }

  /** `map(getListEntry, paths)` */
  function Entries(paths: seq<string>, resolve: Resolver, probe: Prober): seq<string> {
    seq(|paths|, k requires 0 <= k < |paths| => ListEntry(paths[k], resolve, probe))
  }

  /** The text `writeSegmentList` writes, given the directory listing in
      whatever order `glob` produced it. */
  function SegmentList(listing: seq<string>, resolve: Resolver, probe: Prober): string {
    Join(Entries(Sort(listing), resolve, probe), Newline)
  }

  /** A line of the list: an accepted file, quoted, or a blank for a rejected one. */
  lemma ListEntryShape(path: string, resolve: Resolver, probe: Prober)
    ensures probe(resolve(path)) ==> ListEntry(path, resolve, probe) == "file '" + resolve(path) + "'"
    ensures !probe(resolve(path)) ==> ListEntry(path, resolve, probe) == ""
    ensures Newline !in resolve(path) ==> Newline !in ListEntry(path, resolve, probe)
  {
  }

  /** When no resolved name holds a line break and the directory is not
      empty, the list has exactly one line per file, in sorted order, and
      line k is the entry of the k-th file: files the prober rejects leave a
      blank line rather than disappearing. */
  lemma SegmentListLines(listing: seq<string>, resolve: Resolver, probe: Prober)
    requires |listing| >= 1
    requires forall k | 0 <= k < |listing| :: Newline !in resolve(listing[k])
    ensures |Split(SegmentList(listing, resolve, probe), Newline)| == |listing|
    ensures forall k | 0 <= k < |listing| ::
      Split(SegmentList(listing, resolve, probe), Newline)[k] == ListEntry(Sort(listing)[k], resolve, probe)
  {
    var sorted := Sort(listing);
    var entries := Entries(sorted, resolve, probe);
    forall k | 0 <= k < |entries| ensures Newline !in entries[k] {
      assert sorted[k] in multiset(listing);
      var j :| 0 <= j < |listing| && listing[j] == sorted[k];
      ListEntryShape(sorted[k], resolve, probe);
    }
    SplitJoin(entries, Newline);
  }

  /** The list does not depend on the order `glob` lists the files in. */
  lemma SegmentListIgnoresListingOrder(a: seq<string>, b: seq<string>, resolve: Resolver, probe: Prober)
    requires multiset(a) == multiset(b)
    ensures SegmentList(a, resolve, probe) == SegmentList(b, resolve, probe)
  {
    SortIgnoresOrder(a, b);
  }

  /** An empty directory and a directory holding one rejected file give the
      same, empty, list. */
  lemma EmptyListAmbiguous(path: string, resolve: Resolver, probe: Prober)
    requires !probe(resolve(path))
    ensures SegmentList([], resolve, probe) == SegmentList([path], resolve, probe) == ""
  {
    assert Sort([path]) == [path] by {
      SortedUnique(Sort([path]), [path]);
    }
    JoinEmptyAmbiguous(Newline);
  }

  /** When the temporary directory holds exactly the artifacts of the
      segments created from a counter at `base` (nothing else, as the
      startup guard arranges unless `--ignore-temp` is given) and the counter
      stays within five digits, the list names them in creation order, that
      is in log order. */
  lemma SegmentListOfSegments(listing: seq<string>, ps: seq<Pair>, base: nat, resolve: Resolver, probe: Prober)
    requires base + |ps| <= 99999
    requires multiset(listing) == multiset(OutPaths(Segments(ps, base)))
    ensures Sort(listing) == OutPaths(Segments(ps, base))
    ensures SegmentList(listing, resolve, probe) == Join(Entries(OutPaths(Segments(ps, base)), resolve, probe), Newline)
  {
    var paths := OutPaths(Segments(ps, base));
    SegmentPathsSorted(ps, base);
    assert Sorted(paths);
    SortedUnique(Sort(listing), paths);
  }
}
