/**
 The version list the completion handler builds from a package's releases:
 one entry per release with its first upload time, sorted in place with the
 handler's comparator (newest upload first, else by version key: the
 version text with each `.` read as `,`).
 */
module VersionList {
  import opened Options
  import opened Pypi
  import opened JsStrings

  /** `{ version, upload_time }`; `None` stands for both `null` and `undefined`. */
  datatype Entry = Entry(version: string, uploadTime: Option<string>)

  /** JavaScript truthiness of an `upload_time`: present and not the empty string. */
  predicate Truthy(t: Option<string>)
  {
    t.Some? && t.value != ""
  }

  /** `e.upload_time || ''`, the detail shown next to a version. */
  function Time(e: Entry): (t: string)
    ensures t != "" <==> Truthy(e.uploadTime)
    ensures Truthy(e.uploadTime) ==> t == e.uploadTime.value
  {
    if Truthy(e.uploadTime) then e.uploadTime.value else ""
  }

  /** Where `records.find(e => e.upload_time)` stops: the first truthy time, or past the end. */
  function FirstTimedIndex(records: seq<UploadRecord>): (k: nat)
    ensures k <= |records|
    ensures forall i :: 0 <= i < k ==> records[i].uploadTime == ""
    ensures k < |records| ==> records[k].uploadTime != ""
  {
    if records == [] || records[0].uploadTime != "" then 0
    else 1 + FirstTimedIndex(records[1..])
  }

  /** `Array.isArray(info) ? info.find(e => e.upload_time)?.upload_time : null`. */
  function UploadTimeOf(value: ReleaseValue): (t: Option<string>)
    ensures value.NotAnArray? ==> t == None
    ensures value.Records? && t.None? ==>
              forall i :: 0 <= i < |value.records| ==> value.records[i].uploadTime == ""
    ensures value.Records? && t.Some? ==>
              exists i :: 0 <= i < |value.records| && value.records[i].uploadTime == t.value
                          && forall k :: 0 <= k < i ==> value.records[k].uploadTime == ""
    ensures t.Some? ==> t.value != ""
  {
    match value
    case NotAnArray => None
    case Records(rs) =>
      var k := FirstTimedIndex(rs);
      if k < |rs| then Some(rs[k].uploadTime) else None
  }

  /** The entry pushed for one release. */
  function EntryOf(r: Release): (e: Entry)
    ensures e.version == r.version
    // the entry has a time exactly when the release is an array holding a record with a non-empty time
    ensures e.uploadTime.Some? <==>
              r.value.Records? && exists i :: 0 <= i < |r.value.records| && r.value.records[i].uploadTime != ""
    ensures e.uploadTime.Some? ==> Truthy(e.uploadTime)
  {
    Entry(r.version, UploadTimeOf(r.value))
  }

  /** The list of entries, one per release, in release order. */
  function EntriesOf(releases: seq<Release>): (es: seq<Entry>)
    ensures |es| == |releases|
    ensures forall i :: 0 <= i < |releases| ==> es[i].version == releases[i].version
  {
    seq(|releases|, i requires 0 <= i < |releases| => EntryOf(releases[i]))
  }

  /** The `for ... of Object.entries(result.releases)` loop that pushes one entry per release. */
  method CollectEntries(releases: seq<Release>) returns (versions: seq<Entry>)
    ensures versions == EntriesOf(releases)
  {
    versions := [];
    for i := 0 to |releases|
      invariant |versions| == i
      invariant forall k :: 0 <= k < i ==> versions[k] == EntryOf(releases[k])
    {
      versions := versions + [EntryOf(releases[i])];
    }
  }

  /** `String(v.split('.'))`: the array of pieces turned into a string for `>`. */
  function VersionKey(v: string): (k: string)
    // the version text, character for character, with each `.` read as `,`
    ensures |k| == |v|
    ensures '.' !in k
  {
    JoinSplit(v, '.', ',');
    Join(Split(v, '.'), ',')
  }

  /** Comparing split versions compares the version text with each `.` read as `,`. */
  lemma VersionKeyIsReplace(v: string)
    ensures VersionKey(v) == Replace(v, '.', ',')
    ensures |VersionKey(v)| == |v|
  {
    JoinSplit(v, '.', ',');
  }

  /** The comparator given to `versions.sort`; it never answers 0. */
  function Compare(a: Entry, b: Entry): (r: int)
    ensures r == -1 || r == 1
  {
    if !Truthy(a.uploadTime) || !Truthy(b.uploadTime) then
      (if Less(VersionKey(b.version), VersionKey(a.version)) then -1 else 1)
    else
      (if Less(b.uploadTime.value, a.uploadTime.value) then -1 else 1)
  }

  /** The comparator puts `a` before `b`. */
  predicate Before(a: Entry, b: Entry)
  {
    Compare(a, b) < 0
  }

  /** An entry never goes before itself: the comparator is not a total order on lists with repeats. */
  lemma BeforeIrreflexive(a: Entry)
    ensures !Before(a, a)
  {
    LessIrreflexive(VersionKey(a.version));
    LessIrreflexive(Time(a));
  }

  /**
   With one entry lacking an upload time the comparator can go round in a
   circle, so it is not transitive and such inputs are not `Consistent`.
   */
  lemma ComparatorCycle()
    ensures var a, b, c := Entry("1", Some("2020")), Entry("2", None), Entry("3", Some("2019"));
            Before(a, c) && Before(c, b) && Before(b, a) && !Consistent([a, b, c])
  {
    var a, b, c := Entry("1", Some("2020")), Entry("2", None), Entry("3", Some("2019"));
    assert VersionKey("1") == "1" && VersionKey("2") == "2" && VersionKey("3") == "3";
    var s := [a, b, c];
    assert Before(s[0], s[2]) && Before(s[2], s[1]) && !Before(s[0], s[1]);
  }

  /** What the comparator compares: the upload time when `timed`, the version key otherwise. */
  function Key(e: Entry, timed: bool): string
  {
    if timed then Time(e) else VersionKey(e.version)
  }

  /** Either every entry has an upload time (`timed`) or none has. */
  ghost predicate Uniform(s: seq<Entry>, timed: bool)
  {
    forall k :: 0 <= k < |s| ==> Truthy(s[k].uploadTime) == timed
  }

  ghost predicate DistinctKeys(s: seq<Entry>, timed: bool)
  {
    forall p, q :: 0 <= p < q < |s| ==> Key(s[p], timed) != Key(s[q], timed)
  }

  /** Strictly descending by key, "newest first". */
  ghost predicate Descending(s: seq<Entry>, timed: bool)
  {
    forall p, q :: 0 <= p < q < |s| ==> Less(Key(s[q], timed), Key(s[p], timed))
  }

  /**
   The comparator is a strict order on the entries of `s`: on two distinct
   positions it answers one way round and not the other, and it is transitive.
   Inputs on which it goes round in a circle are not consistent.
   */
  ghost predicate Consistent(s: seq<Entry>)
  {
    OneWay(s) && TransitiveOn(s)
  }

  /** The comparator answers each pair of distinct positions one way round only. */
  ghost predicate OneWay(s: seq<Entry>)
  {
    forall p, q :: 0 <= p < |s| && 0 <= q < |s| && p != q ==> (Before(s[p], s[q]) <==> !Before(s[q], s[p]))
  }

  /** The comparator is transitive on the entries of `s`. */
  ghost predicate TransitiveOn(s: seq<Entry>)
  {
    forall p, q, r :: 0 <= p < |s| && 0 <= q < |s| && 0 <= r < |s| && Before(s[p], s[q]) && Before(s[q], s[r]) ==>
      Before(s[p], s[r])
  }

  /** Neighbours between `lo` and `hi` are in comparator order. */
  ghost predicate OrderedRange(s: seq<Entry>, lo: int, hi: int)
  {
    0 <= lo <= hi <= |s| && forall k :: lo < k < hi ==> Before(s[k - 1], s[k])
  }

  ghost predicate Ordered(s: seq<Entry>)
  {
    OrderedRange(s, 0, |s|)
  }

  /** Between entries of one kind, the comparator is descending order of the key. */
  lemma BeforeByKey(a: Entry, b: Entry, timed: bool)
    requires Truthy(a.uploadTime) == timed && Truthy(b.uploadTime) == timed
    ensures Before(a, b) <==> Less(Key(b, timed), Key(a, timed))
  {
  }

  /** With all entries of one kind and their keys distinct, the comparator is consistent. */
  lemma UniformDistinctIsConsistent(s: seq<Entry>, timed: bool)
    requires Uniform(s, timed) && DistinctKeys(s, timed)
    ensures Consistent(s)
  {
    forall p, q | 0 <= p < |s| && 0 <= q < |s| && p != q
      ensures Before(s[p], s[q]) <==> !Before(s[q], s[p])
    {
      BeforeByKey(s[p], s[q], timed);
      BeforeByKey(s[q], s[p], timed);
      LessTrichotomy(Key(s[p], timed), Key(s[q], timed));
    }
    forall p, q, r | 0 <= p < |s| && 0 <= q < |s| && 0 <= r < |s| && Before(s[p], s[q]) && Before(s[q], s[r])
      ensures Before(s[p], s[r])
    {
      BeforeByKey(s[p], s[q], timed);
      BeforeByKey(s[q], s[r], timed);
      BeforeByKey(s[p], s[r], timed);
      LessTransitive(Key(s[r], timed), Key(s[q], timed), Key(s[p], timed));
    }
  }

  /** In a list of one kind in comparator order, a later entry has a smaller key than an earlier one. */
  lemma {:induction false} LaterIsSmaller(s: seq<Entry>, timed: bool, p: nat, q: nat)
    requires Uniform(s, timed) && Ordered(s)
    requires p < q < |s|
    ensures Less(Key(s[q], timed), Key(s[p], timed))
    decreases q - p
  {
    BeforeByKey(s[q - 1], s[q], timed);
    if p < q - 1 {
      LaterIsSmaller(s, timed, p, q - 1);
      LessTransitive(Key(s[q], timed), Key(s[q - 1], timed), Key(s[p], timed));
    }
  }

  /** With all entries of one kind, neighbours in comparator order mean the whole list descends. */
  lemma OrderedIsDescending(s: seq<Entry>, timed: bool)
    requires Uniform(s, timed) && Ordered(s)
    ensures Descending(s, timed)
  {
    forall p, q | 0 <= p < q < |s|
      ensures Less(Key(s[q], timed), Key(s[p], timed))
    {
      LaterIsSmaller(s, timed, p, q);
    }
  }

  /** The insertion sort relies only on the comparator answering one way round; swaps keep that. */
  lemma OneWaySwap(s: seq<Entry>, i: nat, j: nat)
    requires i < |s| && j < |s| && OneWay(s)
    ensures OneWay(s[i := s[j]][j := s[i]])
  {
    var t := s[i := s[j]][j := s[i]];
    forall p, q | 0 <= p < |t| && 0 <= q < |t| && p != q
      ensures Before(t[p], t[q]) <==> !Before(t[q], t[p])
    {
      var p' := if p == i then j else if p == j then i else p;
      var q' := if q == i then j else if q == j then i else q;
      assert t[p] == s[p'] && t[q] == s[q'];
    }
  }

  /** Swapping `s[j - 1]` with a smaller `s[j]` extends the sorted prefix and keeps the sorted run. */
  lemma SwapKeepsRuns(s: seq<Entry>, j: nat, i: nat)
    requires 0 < j <= i < |s|
    requires OrderedRange(s, 0, j) && OrderedRange(s, j, i + 1)
    requires j < i ==> Before(s[j - 1], s[j + 1])
    requires Before(s[j], s[j - 1])
    ensures var t := s[j - 1 := s[j]][j := s[j - 1]];
            && OrderedRange(t, 0, j - 1) && OrderedRange(t, j - 1, i + 1)
            && (0 < j - 1 ==> Before(t[j - 2], t[j]))
  {
    var t := s[j - 1 := s[j]][j := s[j - 1]];
    assert Before(t[j - 1], t[j]);
    forall k | j - 1 < k < i + 1
      ensures Before(t[k - 1], t[k])
    {
      if k == j + 1 {
        assert t[k - 1] == s[j - 1] && t[k] == s[j + 1];
      } else if k > j + 1 {
        assert t[k - 1] == s[k - 1] && t[k] == s[k];
      }
    }
    if 0 < j - 1 {
      assert Before(s[j - 2], s[j - 1]);
    }
  }

  /**
   Midway through inserting `s[i]`: it has moved to `j`, the entries before
   it are in order, it and the entries after it up to `i` are in order, and
   its left neighbour goes before its right one.
   */
  ghost predicate Inserting(s: seq<Entry>, j: nat, i: nat)
  {
    && j <= i < |s|
    && OneWay(s) && OrderedRange(s, 0, j) && OrderedRange(s, j, i + 1)
    && (0 < j < i ==> Before(s[j - 1], s[j + 1]))
  }

  /** One swap of the insertion: the entry at `j` moves left past a neighbour that must follow it. */
  lemma InsertionSwap(s: seq<Entry>, j: nat, i: nat)
    requires 0 < j && Inserting(s, j, i)
    requires !Before(s[j - 1], s[j])
    ensures Inserting(s[j - 1 := s[j]][j := s[j - 1]], j - 1, i)
  {
    assert Before(s[j], s[j - 1]);
    OneWaySwap(s, j - 1, j);
    SwapKeepsRuns(s, j, i);
  }

  /** When the insertion stops, the first `i + 1` entries are in order. */
  lemma InsertionDone(s: seq<Entry>, j: nat, i: nat)
    requires Inserting(s, j, i)
    requires j > 0 ==> Before(s[j - 1], s[j])
    ensures OneWay(s) && OrderedRange(s, 0, i + 1)
  {
  }

  /**
   One step of the insertion sort: `a[i]` moves left, by swaps of
   neighbours, past every entry the comparator puts after it. When the
   comparator answers one way round on the entries (`consistent`) and the
   first `i` are in order, the first `i + 1` end up in order.
   */
  method InsertLast(a: array<Entry>, i: nat, ghost consistent: bool)
    requires i < a.Length
    requires consistent ==> OneWay(a[..]) && OrderedRange(a[..], 0, i)
    modifies a
    ensures multiset(a[..]) == multiset(old(a[..]))
    ensures consistent ==> OneWay(a[..]) && OrderedRange(a[..], 0, i + 1)
  {
    var j := i;
    while j > 0 && !Before(a[j - 1], a[j])
      invariant 0 <= j <= i
      invariant multiset(a[..]) == multiset(old(a[..]))
      invariant consistent ==> Inserting(a[..], j, i)
    {
      ghost var before := a[..];
      if consistent {
        InsertionSwap(before, j, i);
      }
      a[j - 1], a[j] := a[j], a[j - 1];
      assert a[..] == before[j - 1 := before[j]][j := before[j - 1]];
      j := j - 1;
    }
    if consistent {
      InsertionDone(a[..], j, i);
    }
  }

  /**
   `versions.sort(compare)`, as an insertion sort by swaps of neighbours. It
   always permutes the entries; when the comparator is a strict order on them,
   neighbours end up in comparator order.
   */
  method SortEntries(a: array<Entry>)
    modifies a
    ensures multiset(a[..]) == multiset(old(a[..]))
    ensures Consistent(old(a[..])) ==> Ordered(a[..])
  {
    ghost var consistent := OneWay(a[..]);
    var i := 0;
    while i < a.Length
      invariant 0 <= i <= a.Length
      invariant multiset(a[..]) == multiset(old(a[..]))
      invariant consistent ==> OneWay(a[..]) && OrderedRange(a[..], 0, i)
    {
      InsertLast(a, i, consistent);
      i := i + 1;
    }
  }

  /** Being of one kind is kept by any permutation. */
  lemma UniformPermutation(s: seq<Entry>, t: seq<Entry>, timed: bool)
    requires multiset(s) == multiset(t) && Uniform(s, timed)
    ensures Uniform(t, timed)
  {
    forall k | 0 <= k < |t|
      ensures Truthy(t[k].uploadTime) == timed
    {
      assert t[k] in multiset(t);
      var m :| 0 <= m < |s| && s[m] == t[k];
    }
  }

  /**
   Lines 54-65 of the completion handler: the entries of the releases, sorted.
   The result is a permutation of one entry per release; it is in comparator
   order whenever the comparator is consistent on the entries, and in
   particular strictly descending by upload time when every release has a
   distinct upload time.
   */
  method BuildVersionList(releases: seq<Release>) returns (sorted: seq<Entry>)
    ensures multiset(sorted) == multiset(EntriesOf(releases))
    ensures |sorted| == |releases|
    ensures Consistent(EntriesOf(releases)) ==> Ordered(sorted)
    ensures forall timed: bool :: Uniform(EntriesOf(releases), timed) && DistinctKeys(EntriesOf(releases), timed) ==>
              Descending(sorted, timed)
  {
    var versions := CollectEntries(releases);
    var a := new Entry[|versions|](k requires 0 <= k < |versions| => versions[k]);
    assert a[..] == versions;
    SortEntries(a);
    sorted := a[..];
    assert |sorted| == |multiset(sorted)| == |multiset(versions)| == |versions|;
    forall timed: bool | Uniform(versions, timed) && DistinctKeys(versions, timed)
      ensures Descending(sorted, timed)
    {
      UniformDistinctIsConsistent(versions, timed);
      UniformPermutation(versions, sorted, timed);
      OrderedIsDescending(sorted, timed);
    }
  }

  /** Three releases: `1.0` and `2.0` with one upload each, `1.5` with no upload records. */
  function MixedReleases(): seq<Release>
  {
    [ Release("1.0", Records([UploadRecord("2020-01-01")])),
      Release("2.0", Records([UploadRecord("2021-06-01")])),
      Release("1.5", NotAnArray) ]
  }

  lemma MixedReleasesEntries()
    ensures EntriesOf(MixedReleases())
         == [Entry("1.0", Some("2020-01-01")), Entry("2.0", Some("2021-06-01")), Entry("1.5", None)]
  {
    assert UploadTimeOf(Records([UploadRecord("2020-01-01")])) == Some("2020-01-01");
    assert UploadTimeOf(Records([UploadRecord("2021-06-01")])) == Some("2021-06-01");
  }

  lemma DottedKey(d: char, e: char)
    requires d != '.' && e != '.'
    ensures VersionKey([d, '.', e]) == [d, ',', e]
  {
    VersionKeyIsReplace([d, '.', e]);
    var r := Replace([d, '.', e], '.', ',');
    assert r[0] == d && r[1] == ',' && r[2] == e;
  }

  /**
   Untimed releases are ordered by version key, which is not the order of
   the version texts: `-` lies between `,` and `.`, so `2.0-rc1` goes before
   `2.0.1` although it is the smaller text. Distinct texts can also share a
   key.
   */
  lemma KeyOrderIsNotTextOrder()
    ensures Before(Entry("2.0-rc1", None), Entry("2.0.1", None))
    ensures Less("2.0-rc1", "2.0.1")
    ensures VersionKey("1.0") == VersionKey("1,0")
  {
    ReleaseCandidateKey();
    PatchKey();
    ReleaseCandidateComparisons();
    DottedKey('1', '0');
    CommaKey();
  }

  /** At the fourth character, `,` < `-` < `.`, and both strings agree before it. */
  lemma ReleaseCandidateComparisons()
    ensures Less("2,0,1", "2,0-rc1")
    ensures Less("2.0-rc1", "2.0.1")
  {
    assert Less("2,0,1", "2,0-rc1");
    assert Less("2.0-rc1", "2.0.1");
  }

  lemma ReleaseCandidateKey()
    ensures VersionKey("2.0-rc1") == "2,0-rc1"
  {
    VersionKeyIsReplace("2.0-rc1");
    var r := Replace("2.0-rc1", '.', ',');
    assert r[0] == '2' && r[1] == ',' && r[2] == '0' && r[3] == '-' && r[4] == 'r' && r[5] == 'c' && r[6] == '1';
  }

  lemma PatchKey()
    ensures VersionKey("2.0.1") == "2,0,1"
  {
    VersionKeyIsReplace("2.0.1");
    var t := Replace("2.0.1", '.', ',');
    assert t[0] == '2' && t[1] == ',' && t[2] == '0' && t[3] == ',' && t[4] == '1';
  }

  lemma CommaKey()
    ensures VersionKey("1,0") == "1,0"
  {
    VersionKeyIsReplace("1,0");
    var r := Replace("1,0", '.', ',');
    assert r[0] == '1' && r[1] == ',' && r[2] == '0';
  }

  /** The two timed releases are compared by upload time. */
  lemma MixedReleasesTimed()
    ensures var e10, e20 := Entry("1.0", Some("2020-01-01")), Entry("2.0", Some("2021-06-01"));
            Before(e20, e10) && !Before(e10, e20)
  {
    assert Less("2020-01-01", "2021-06-01");
    assert !Less("2021-06-01", "2020-01-01");
  }

  /** The untimed release is compared with the others by version key. */
  lemma MixedReleasesUntimed()
    ensures var e10, e20, e15 := Entry("1.0", Some("2020-01-01")), Entry("2.0", Some("2021-06-01")), Entry("1.5", None);
            && Before(e15, e10) && !Before(e10, e15)
            && Before(e20, e15) && !Before(e15, e20)
  {
    DottedKey('1', '0');
    DottedKey('2', '0');
    DottedKey('1', '5');
    assert Less("1,0", "1,5") && !Less("1,5", "1,0");
    assert Less("1,5", "2,0") && !Less("2,0", "1,5");
  }


  /** Three entries the comparator ranks `s[1]`, `s[2]`, `s[0]`, each pair one way round only. */
  lemma ChainOfThreeConsistent(s: seq<Entry>)
    requires |s| == 3
    requires Before(s[1], s[2]) && Before(s[2], s[0]) && Before(s[1], s[0])
    requires !Before(s[2], s[1]) && !Before(s[0], s[2]) && !Before(s[0], s[1])
    ensures Consistent(s)
  {
    BeforeIrreflexive(s[0]);
    BeforeIrreflexive(s[1]);
    BeforeIrreflexive(s[2]);
    forall p, q, r | 0 <= p < 3 && 0 <= q < 3 && 0 <= r < 3
      ensures Before(s[p], s[q]) && Before(s[q], s[r]) ==> Before(s[p], s[r])
    {
      assert p == 0 || p == 1 || p == 2;
      assert q == 0 || q == 1 || q == 2;
      assert r == 0 || r == 1 || r == 2;
    }
  }

  lemma MixedReleasesConsistent()
    ensures Consistent(EntriesOf(MixedReleases()))
  {
    MixedReleasesEntries();
    MixedReleasesTimed();
    MixedReleasesUntimed();
    ChainOfThreeConsistent(EntriesOf(MixedReleases()));
  }

  /** A permutation of three entries holds only those entries. */
  lemma PermutationOfThree(s: seq<Entry>, t: seq<Entry>)
    requires |s| == 3 && multiset(t) == multiset(s)
    ensures |t| == 3
    ensures forall k :: 0 <= k < 3 ==> t[k] == s[0] || t[k] == s[1] || t[k] == s[2]
  {
    assert |t| == 3 by {
      assert |multiset(t)| == |multiset(s)|;
    }
    forall k | 0 <= k < 3
      ensures t[k] == s[0] || t[k] == s[1] || t[k] == s[2]
    {
      assert t[k] in multiset(s);
      assert t[k] in s;
    }
  }

  /** The only arrangement of such three entries in comparator order is `s[1]`, `s[2]`, `s[0]`. */
  lemma ChainOfThreeOrder(s: seq<Entry>, t: seq<Entry>)
    requires |s| == 3
    requires Before(s[1], s[2]) && Before(s[2], s[0]) && Before(s[1], s[0])
    requires !Before(s[2], s[1]) && !Before(s[0], s[2]) && !Before(s[0], s[1])
    requires multiset(t) == multiset(s) && Ordered(t)
    ensures t == [s[1], s[2], s[0]]
  {
    BeforeIrreflexive(s[0]);
    BeforeIrreflexive(s[1]);
    BeforeIrreflexive(s[2]);
    PermutationOfThree(s, t);
    assert Before(t[0], t[1]) && Before(t[1], t[2]);
    assert t[1] == s[2];
    assert t[0] == s[1];
    assert t[2] == s[0];
  }

  /**
   The comparator is consistent on the entries of `MixedReleases()`, and the
   only list of them in comparator order is `2.0, 1.5, 1.0`: `1.5` has no
   upload time, so it is placed against both others by version key, ahead
   of `1.0`.
   */
  lemma MixedReleasesOrder(s: seq<Entry>)
    requires multiset(s) == multiset(EntriesOf(MixedReleases())) && Ordered(s)
    ensures Consistent(EntriesOf(MixedReleases()))
    ensures s == [Entry("2.0", Some("2021-06-01")), Entry("1.5", None), Entry("1.0", Some("2020-01-01"))]
  {
    MixedReleasesEntries();
    MixedReleasesTimed();
    MixedReleasesUntimed();
    MixedReleasesConsistent();
    ChainOfThreeOrder(EntriesOf(MixedReleases()), s);
  }
}
