/** The duplicate grouper of `dups/Source.cpp` (lines 453-551): files are bucketed by their
    base name, each bucket with more than one file is cut into runs of equal size, every run of
    at least two files becomes a group, and the groups are ranked by total size, largest
    first. */
module Grouper {
  import opened Sorting

  /** A file found by the traversal: its path and its size in bytes. */
  datatype PathDetails = PathDetails(path: string, size: nat)

  /** Files reported as duplicates of each other: indices into the file list, and the sum of
      their sizes. */
  datatype NameBasedGroup = NameBasedGroup(duplicates: seq<nat>, totalSize: nat)

  /** A file's size paired with its index into the file list (`PathSizeIdx`). */
  datatype SizeIdx = SizeIdx(size: nat, idx: nat)

  /** The bucket map: base name to the indices of the files with that name. */
  type NameMapping = map<string, seq<nat>>

  // ---------------------------------------------------------------------------------------
  // Base names

  /** The last component of a path, as `filename()` yields it: everything after the last `/`
      (empty when the path ends in `/`). */
  function FileName(path: string): (r: string)
    ensures |r| <= |path|
    ensures forall k :: 0 <= k < |r| ==> r[k] != '/'
  {
    if path == [] || path[|path| - 1] == '/' then []
    else FileName(path[..|path| - 1]) + [path[|path| - 1]]
  }

  /** The base name is a suffix of the path without `/`, and it is the whole path or follows
      a `/`. */
  lemma {:induction false} FileNameIsLastComponent(path: string)
    ensures |FileName(path)| <= |path|
    ensures FileName(path) == path[|path| - |FileName(path)|..]
    ensures forall k :: 0 <= k < |FileName(path)| ==> FileName(path)[k] != '/'
    ensures |FileName(path)| < |path| ==> path[|path| - |FileName(path)| - 1] == '/'
  {
    if path != [] && path[|path| - 1] != '/' {
      var init, c := path[..|path| - 1], path[|path| - 1];
      FileNameIsLastComponent(init);
      var g := FileName(init);
      assert FileName(path) == g + [c];
      assert path == init + [c];
      assert path[|path| - |g| - 1..] == init[|init| - |g|..] + [c];
      if |g| < |init| {
        assert path[|path| - |g| - 2] == init[|init| - |g| - 1];
      }
    }
  }

  /** A path without `/` is its own base name. */
  lemma {:induction false} FileNameWithoutSlash(path: string)
    requires forall k :: 0 <= k < |path| ==> path[k] != '/'
    ensures FileName(path) == path
  {
    if path != [] {
      var init := path[..|path| - 1];
      assert forall k :: 0 <= k < |init| ==> init[k] == path[k];
      FileNameWithoutSlash(init);
      assert path == init + [path[|path| - 1]];
    }
  }

  /** The base name of file `i`. */
  function Name(files: seq<PathDetails>, i: nat): string
    requires i < |files|
  {
    FileName(files[i].path)
  }

  /** Files `i` and `j` have the same base name and the same size. */
  predicate SameKey(files: seq<PathDetails>, i: nat, j: nat)
    requires i < |files| && j < |files|
  {
    Name(files, i) == Name(files, j) && files[i].size == files[j].size
  }

  /** Every index in `indices` refers to a file. */
  predicate InRange(files: seq<PathDetails>, indices: seq<nat>) {
    forall k :: 0 <= k < |indices| ==> indices[k] < |files|
  }

  predicate StrictlyAscending(s: seq<nat>) {
    forall p, q :: 0 <= p < q < |s| ==> s[p] < s[q]
  }

  // ---------------------------------------------------------------------------------------
  // Bucketing by name

  /** `addFileNameToMapping` (lines 453-463): `idx` is appended to the bucket of the file's
      base name, which is created empty first when absent; no other bucket changes. */
  method AddFileNameToMapping(pd: PathDetails, idx: nat, fnMapping: NameMapping)
    returns (m: NameMapping)
    ensures m.Keys == fnMapping.Keys + {FileName(pd.path)}
    ensures FileName(pd.path) in fnMapping ==>
      m[FileName(pd.path)] == fnMapping[FileName(pd.path)] + [idx]
    ensures FileName(pd.path) !in fnMapping ==> m[FileName(pd.path)] == [idx]
    ensures forall name | name in fnMapping && name != FileName(pd.path) ::
      m[name] == fnMapping[name]
  {
    var fileName := FileName(pd.path);
    m := fnMapping;
    if fileName !in m {
      m := m[fileName := []];
    }
    m := m[fileName := m[fileName] + [idx]];
  }

  /** `m` buckets the files `0..n-1` by base name: each bucket is non-empty and lists in
      ascending order exactly the indices below `n` of the files with that name. */
  predicate Buckets(files: seq<PathDetails>, m: NameMapping, n: nat)
    requires n <= |files|
  {
    (forall name | name in m ::
      m[name] != [] && StrictlyAscending(m[name]) &&
      forall k :: 0 <= k < |m[name]| ==> m[name][k] < n && Name(files, m[name][k]) == name)
    && (forall i :: 0 <= i < n ==> Name(files, i) in m && i in m[Name(files, i)])
  }

  /** Appending file `n` to a bucket of earlier files of its name keeps the bucket ascending
      and of one name. */
  lemma GrowBucket(files: seq<PathDetails>, b: seq<nat>, n: nat)
    requires n < |files| && StrictlyAscending(b)
    requires forall k :: 0 <= k < |b| ==> b[k] < n && Name(files, b[k]) == Name(files, n)
    ensures StrictlyAscending(b + [n])
    ensures forall k :: 0 <= k < |b + [n]| ==>
      (b + [n])[k] < n + 1 && Name(files, (b + [n])[k]) == Name(files, n)
  {
    var b' := b + [n];
    forall p, q | 0 <= p < q < |b'|
      ensures b'[p] < b'[q]
    {
      assert b'[p] == b[p];
    }
    forall k | 0 <= k < |b'|
      ensures b'[k] < n + 1 && Name(files, b'[k]) == Name(files, n)
    {
      if k < |b| {
        assert b'[k] == b[k];
      }
    }
  }

  /** Adding file `n` to the buckets of the files before it buckets the files up to `n`. */
  lemma BucketsStep(files: seq<PathDetails>, m: NameMapping, m': NameMapping, n: nat)
    requires n < |files| && Buckets(files, m, n)
    requires m'.Keys == m.Keys + {Name(files, n)}
    requires m'[Name(files, n)] ==
      (if Name(files, n) in m then m[Name(files, n)] else []) + [n]
    requires forall name | name in m && name != Name(files, n) :: m'[name] == m[name]
    ensures Buckets(files, m', n + 1)
  {
    var x := Name(files, n);
    var old_ := if x in m then m[x] else [];
    GrowBucket(files, old_, n);
    forall i | 0 <= i < n + 1
      ensures Name(files, i) in m' && i in m'[Name(files, i)]
    {
      if i < n && Name(files, i) == x {
        assert i in old_;
      }
      if i == n {
        assert m'[x][|old_|] == n;
      }
    }
  }

  /** The bucket loop of `filterAndGroupFiles` (lines 507-513). */
  method MapFileNames(allFiles: seq<PathDetails>) returns (fnMapping: NameMapping)
    ensures Buckets(allFiles, fnMapping, |allFiles|)
  {
    fnMapping := map[];
    for idx := 0 to |allFiles|
      invariant Buckets(allFiles, fnMapping, idx)
    {
      var m := AddFileNameToMapping(allFiles[idx], idx, fnMapping);
      BucketsStep(allFiles, fnMapping, m, idx);
      fnMapping := m;
    }
  }

  // ---------------------------------------------------------------------------------------
  // Total size

  /** The sum of the sizes of the files `indices` refers to. */
  function SumSizes(files: seq<PathDetails>, indices: seq<nat>): nat
    requires InRange(files, indices)
  {
    if indices == [] then 0
    else SumSizes(files, indices[..|indices| - 1]) + files[indices[|indices| - 1]].size
  }

  /** `getTotalSize` (lines 466-474). */
  method GetTotalSize(indices: seq<nat>, allFiles: seq<PathDetails>) returns (totalSize: nat)
    requires InRange(allFiles, indices)
    ensures totalSize == SumSizes(allFiles, indices)
  {
    totalSize := 0;
    for k := 0 to |indices|
      invariant totalSize == SumSizes(allFiles, indices[..k])
    {
      assert indices[..k + 1][..k] == indices[..k];
      totalSize := totalSize + allFiles[indices[k]].size;
    }
    assert indices[..|indices|] == indices;
  }

  /** Files of one size `s` add up to `s` times their number. */
  lemma {:induction false} SumUniform(files: seq<PathDetails>, indices: seq<nat>, s: nat)
    requires InRange(files, indices)
    requires forall k :: 0 <= k < |indices| ==> files[indices[k]].size == s
    ensures SumSizes(files, indices) == s * |indices|
  {
    if indices != [] {
      var init := indices[..|indices| - 1];
      assert forall k :: 0 <= k < |init| ==> init[k] == indices[k];
      SumUniform(files, init, s);
    }
  }

  // ---------------------------------------------------------------------------------------
  // Runs of equal size

  function SizeOf(x: SizeIdx): int {
    x.size
  }

  /** The runs one after another. */
  function Flatten(runs: seq<seq<SizeIdx>>): seq<SizeIdx> {
    if runs == [] then [] else Flatten(runs[..|runs| - 1]) + runs[|runs| - 1]
  }

  lemma FlattenAppend(runs: seq<seq<SizeIdx>>, r: seq<SizeIdx>)
    ensures Flatten(runs + [r]) == Flatten(runs) + r
  {
    assert (runs + [r])[..|runs|] == runs;
  }

  /** All elements of `r` have the size of its first. */
  predicate Uniform(r: seq<SizeIdx>) {
    forall k :: 0 <= k < |r| ==> r[k].size == r[0].size
  }

  /** Non-empty runs of one size each, in strictly increasing order of size. */
  predicate SizeRuns(runs: seq<seq<SizeIdx>>) {
    (forall k :: 0 <= k < |runs| ==> runs[k] != [] && Uniform(runs[k]))
    && (forall k1, k2 :: 0 <= k1 < k2 < |runs| ==> runs[k1][0].size < runs[k2][0].size)
  }

  /** A run of one size larger than that of the last run extends the runs. */
  lemma ExtendRuns(runs: seq<seq<SizeIdx>>, r: seq<SizeIdx>)
    requires SizeRuns(runs) && r != [] && Uniform(r)
    requires runs != [] ==> runs[|runs| - 1][0].size < r[0].size
    ensures SizeRuns(runs + [r])
  {
    var runs': seq<seq<SizeIdx>> := runs + [r];
    forall k1, k2 | 0 <= k1 < k2 < |runs'|
      ensures runs'[k1][0].size < runs'[k2][0].size
    {
      if k2 == |runs| && k1 < |runs| - 1 {
        assert runs[k1][0].size < runs[|runs| - 1][0].size;
      }
    }
  }

  /** The entries from `cStart` up to `idx` (exclusive), all of one size, form a run. */
  lemma UniformSlice(sorted: seq<SizeIdx>, cStart: nat, idx: nat)
    requires cStart < idx <= |sorted|
    requires forall k :: cStart <= k < idx ==> sorted[k].size == sorted[cStart].size
    ensures sorted[cStart..idx] != [] && Uniform(sorted[cStart..idx])
    ensures sorted[cStart..idx][0] == sorted[cStart]
  {
    var r := sorted[cStart..idx];
    forall k | 0 <= k < |r|
      ensures r[k].size == r[0].size
    {
      assert r[k] == sorted[cStart + k];
    }
  }

  /** The state of the loop of `splitBasedOnSize` before entry `idx`: the runs cut so far hold,
      one after another, the entries before `cStart`, and the entries from `cStart` up to `idx`
      all have the size of the entry at `cStart`, which is larger than the size of the last
      run. */
  predicate CutUpTo(sorted: seq<SizeIdx>, splits: seq<seq<SizeIdx>>, cStart: nat, idx: nat) {
    cStart <= idx <= |sorted| && (idx > 0 ==> cStart < idx) && (splits != [] ==> 0 < cStart)
    && Flatten(splits) == sorted[..cStart] && SizeRuns(splits)
    && (forall k :: cStart <= k < idx ==> sorted[k].size == sorted[cStart].size)
    && (splits != [] && cStart < |sorted| ==> splits[|splits| - 1][0].size < sorted[cStart].size)
  }

  /** Each entry is at least as large as the one before it. */
  predicate NeighboursSorted(s: seq<SizeIdx>) {
    forall k :: 0 < k < |s| ==> s[k - 1].size <= s[k].size
  }

  /** Sorted by size means, in particular, ordered neighbours. */
  lemma SortedNeighbours(s: seq<SizeIdx>)
    requires SortedByKey(s, SizeOf)
    ensures NeighboursSorted(s)
  {
    forall k | 0 < k < |s|
      ensures s[k - 1].size <= s[k].size
    {
      assert SizeOf(s[k - 1]) <= SizeOf(s[k]);
    }
  }

  /** An entry of another size than the current run closes that run and starts the next. */
  lemma CutClose(sorted: seq<SizeIdx>, splits: seq<seq<SizeIdx>>, cStart: nat, idx: nat)
    requires NeighboursSorted(sorted) && CutUpTo(sorted, splits, cStart, idx) && idx < |sorted|
    requires sorted[cStart].size != sorted[idx].size
    ensures CutUpTo(sorted, splits + [sorted[cStart..idx]], idx, idx + 1)
  {
    assert sorted[idx - 1].size == sorted[cStart].size;
    UniformSlice(sorted, cStart, idx);
    ExtendRuns(splits, sorted[cStart..idx]);
    FlattenAppend(splits, sorted[cStart..idx]);
    assert sorted[..cStart] + sorted[cStart..idx] == sorted[..idx];
  }

  /** An entry of the size of the current run extends that run. */
  lemma CutExtend(sorted: seq<SizeIdx>, splits: seq<seq<SizeIdx>>, cStart: nat, idx: nat)
    requires CutUpTo(sorted, splits, cStart, idx) && idx < |sorted|
    requires sorted[cStart].size == sorted[idx].size
    ensures CutUpTo(sorted, splits, cStart, idx + 1)
  {
  }

  /** After the loop, the last run is the entries from `cStart` to the end. */
  lemma CutFinish(sorted: seq<SizeIdx>, splits: seq<seq<SizeIdx>>, cStart: nat)
    requires CutUpTo(sorted, splits, cStart, |sorted|)
    ensures Flatten(splits + [sorted[cStart..]]) == sorted
    ensures sorted != [] ==> SizeRuns(splits + [sorted[cStart..]])
    ensures sorted == [] ==> splits + [sorted[cStart..]] == [[]]
  {
    if sorted != [] {
      UniformSlice(sorted, cStart, |sorted|);
      ExtendRuns(splits, sorted[cStart..]);
    }
    FlattenAppend(splits, sorted[cStart..]);
    assert sorted[..cStart] + sorted[cStart..] == sorted;
  }

  /** The loop of `splitBasedOnSize` and the last run after it (lines 487-497): cuts the
      sorted entries into runs of one size each; the runs, one after another, are the
      entries again. */
  method CutRuns(sorted: seq<SizeIdx>) returns (splits: seq<seq<SizeIdx>>)
    requires NeighboursSorted(sorted)
    ensures Flatten(splits) == sorted
    ensures sorted != [] ==> SizeRuns(splits)
    ensures sorted == [] ==> splits == [[]]
  {
    splits := [];
    var cStart := 0;
    var idx := 0;
    while idx < |sorted|
      invariant CutUpTo(sorted, splits, cStart, idx)
    {
      if sorted[cStart].size != sorted[idx].size {
        CutClose(sorted, splits, cStart, idx);
        splits := splits + [sorted[cStart..idx]];
        cStart := idx;
      } else {
        CutExtend(sorted, splits, cStart, idx);
      }
      idx := idx + 1;
    }
    CutFinish(sorted, splits, cStart);
    splits := splits + [sorted[cStart..]];
  }

  /** `splitBasedOnSize` (lines 478-501): the runs, one after another, are the input sorted
      by size; for a non-empty input they are non-empty runs of one size each with strictly
      increasing sizes, so each run holds all entries of its size; an empty input gives a
      single empty run. */
  method SplitBasedOnSize(input: seq<SizeIdx>) returns (splits: seq<seq<SizeIdx>>)
    ensures multiset(Flatten(splits)) == multiset(input)
    ensures SortedByKey(Flatten(splits), SizeOf)
    ensures input != [] ==> SizeRuns(splits)
    ensures input == [] ==> splits == [[]]
  {
    var sorted := SortByKey(input, SizeOf);
    SortedNeighbours(sorted);
    splits := CutRuns(sorted);
  }

  /** An entry lies in some run exactly when it lies in the runs one after another. */
  lemma {:induction false} FlattenMember(runs: seq<seq<SizeIdx>>, x: SizeIdx)
    ensures x in Flatten(runs) <==> exists t :: 0 <= t < |runs| && x in runs[t]
  {
    if runs != [] {
      var init := runs[..|runs| - 1];
      FlattenMember(init, x);
      assert forall t :: 0 <= t < |init| ==> init[t] == runs[t];
    }
  }

  /** A run's entries are among the runs' entries, each as often at least. */
  lemma {:induction false} FlattenContains(runs: seq<seq<SizeIdx>>, t: nat)
    requires t < |runs|
    ensures multiset(runs[t]) <= multiset(Flatten(runs))
  {
    var init := runs[..|runs| - 1];
    if t < |init| {
      FlattenContains(init, t);
      assert init[t] == runs[t];
    }
  }

  // ---------------------------------------------------------------------------------------
  // Groups

  /** The indices of a run's entries (the loop at lines 531-533). */
  function Indices(r: seq<SizeIdx>): seq<nat> {
    seq(|r|, k requires 0 <= k < |r| => r[k].idx)
  }

  /** A group as reported: at least two distinct files, all with the same base name and the
      same size, and the sum of their sizes. */
  predicate WellFormedGroup(files: seq<PathDetails>, g: NameBasedGroup) {
    |g.duplicates| >= 2 && Distinct(g.duplicates) && InRange(files, g.duplicates)
    && (forall p, q | 0 <= p < |g.duplicates| && 0 <= q < |g.duplicates| ::
          SameKey(files, g.duplicates[p], g.duplicates[q]))
    && g.totalSize == SumSizes(files, g.duplicates)
  }

  predicate AllWellFormed(files: seq<PathDetails>, gs: seq<NameBasedGroup>) {
    forall k :: 0 <= k < |gs| ==> WellFormedGroup(files, gs[k])
  }

  /** No file is in two groups. */
  predicate Disjoint(gs: seq<NameBasedGroup>) {
    forall k1, k2, i: nat :: 0 <= k1 < k2 < |gs| && i in gs[k1].duplicates ==> i !in gs[k2].duplicates
  }

  predicate InSameGroup(gs: seq<NameBasedGroup>, i: nat, j: nat) {
    exists k :: 0 <= k < |gs| && i in gs[k].duplicates && j in gs[k].duplicates
  }

  /** Any two distinct files with the same base name and size share a group. */
  predicate Complete(files: seq<PathDetails>, gs: seq<NameBasedGroup>) {
    forall i, j :: 0 <= i < |files| && 0 <= j < |files| && i != j && SameKey(files, i, j) ==>
      InSameGroup(gs, i, j)
  }

  lemma InSameGroupAppend(a: seq<NameBasedGroup>, b: seq<NameBasedGroup>, i: nat, j: nat)
    ensures InSameGroup(a, i, j) ==> InSameGroup(a + b, i, j)
    ensures InSameGroup(b, i, j) ==> InSameGroup(a + b, i, j)
  {
    if InSameGroup(a, i, j) {
      var k :| 0 <= k < |a| && i in a[k].duplicates && j in a[k].duplicates;
      assert (a + b)[k] == a[k];
    }
    if InSameGroup(b, i, j) {
      var k :| 0 <= k < |b| && i in b[k].duplicates && j in b[k].duplicates;
      assert (a + b)[|a| + k] == b[k];
    }
  }

  /** Entry `x` stands for file `x.idx` of the bucket, with that file's size. */
  predicate Faithful(files: seq<PathDetails>, bucket: seq<nat>, x: SizeIdx) {
    x.idx in bucket && x.idx < |files| && x.size == files[x.idx].size
  }

  /** The facts about the runs of one bucket that the groups rest on. */
  predicate BucketRuns(files: seq<PathDetails>, bucket: seq<nat>, runs: seq<seq<SizeIdx>>) {
    SizeRuns(runs)
    && (forall t, k :: 0 <= t < |runs| && 0 <= k < |runs[t]| ==> Faithful(files, bucket, runs[t][k]))
    && (forall t :: 0 <= t < |runs| ==> Distinct(runs[t]))
  }

  /** All files of `bucket` have one base name. */
  predicate OneName(files: seq<PathDetails>, bucket: seq<nat>) {
    InRange(files, bucket)
    && forall p :: 0 <= p < |bucket| ==> Name(files, bucket[p]) == Name(files, bucket[0])
  }

  function GroupOf(files: seq<PathDetails>, r: seq<SizeIdx>): NameBasedGroup
    requires InRange(files, Indices(r))
  {
    NameBasedGroup(Indices(r), SumSizes(files, Indices(r)))
  }

  /** The groups the runs give, in order: one per run of at least two entries. */
  function RunGroups(files: seq<PathDetails>, runs: seq<seq<SizeIdx>>): seq<NameBasedGroup>
    requires forall t :: 0 <= t < |runs| ==> InRange(files, Indices(runs[t]))
  {
    if runs == [] then []
    else
      var r := runs[|runs| - 1];
      RunGroups(files, runs[..|runs| - 1]) + (if |r| > 1 then [GroupOf(files, r)] else [])
  }

  /** A run of at least two entries gives a well-formed group of files from the bucket. */
  lemma GroupOfRun(files: seq<PathDetails>, bucket: seq<nat>, r: seq<SizeIdx>)
    requires OneName(files, bucket) && |r| > 1 && Uniform(r) && Distinct(r)
    requires forall k :: 0 <= k < |r| ==> Faithful(files, bucket, r[k])
    ensures InRange(files, Indices(r))
    ensures WellFormedGroup(files, GroupOf(files, r))
    ensures forall i :: i in Indices(r) ==> i in bucket && SizeIdx(files[i].size, i) in r
    ensures forall i :: 0 <= i < |files| && SizeIdx(files[i].size, i) in r ==> i in Indices(r)
  {
    var d := Indices(r);
    assert forall k :: 0 <= k < |r| ==> r[k] in r;
    forall p, q | 0 <= p < q < |d|
      ensures d[p] != d[q]
    {
      assert r[p] != r[q];
    }
    forall p, q | 0 <= p < |d| && 0 <= q < |d|
      ensures SameKey(files, d[p], d[q])
    {
      var ip, iq := d[p], d[q];
      var mp :| 0 <= mp < |bucket| && bucket[mp] == ip;
      var mq :| 0 <= mq < |bucket| && bucket[mq] == iq;
      assert files[ip].size == r[p].size == r[0].size == r[q].size == files[iq].size;
    }
    forall i | i in d
      ensures i in bucket && SizeIdx(files[i].size, i) in r
    {
      var k :| 0 <= k < |d| && d[k] == i;
      assert r[k] == SizeIdx(files[i].size, i);
    }
    forall i | 0 <= i < |files| && SizeIdx(files[i].size, i) in r
      ensures i in d
    {
      var k :| 0 <= k < |r| && r[k] == SizeIdx(files[i].size, i);
      assert d[k] == i;
    }
  }

  /** Every entry of the earlier runs is smaller than the entries of a later run. */
  lemma EarlierRunsSmaller(runs: seq<seq<SizeIdx>>, x: SizeIdx)
    requires SizeRuns(runs) && runs != []
    requires x in Flatten(runs[..|runs| - 1])
    ensures x.size < runs[|runs| - 1][0].size
  {
    var init := runs[..|runs| - 1];
    FlattenMember(init, x);
    var t :| 0 <= t < |init| && x in init[t];
    assert init[t] == runs[t];
  }

  lemma RunsInRange(files: seq<PathDetails>, bucket: seq<nat>, runs: seq<seq<SizeIdx>>)
    requires forall t, k :: 0 <= t < |runs| && 0 <= k < |runs[t]| ==>
      Faithful(files, bucket, runs[t][k])
    ensures forall t :: 0 <= t < |runs| ==> InRange(files, Indices(runs[t]))
  {
  }

  /** Every file in the groups `gs` is in the bucket and has its entry among `entries`. */
  predicate GroupsFrom(
    files: seq<PathDetails>, bucket: seq<nat>, entries: seq<SizeIdx>, gs: seq<NameBasedGroup>)
  {
    forall k: int, i: nat :: 0 <= k < |gs| && i in gs[k].duplicates ==>
      i in bucket && i < |files| && SizeIdx(files[i].size, i) in entries
  }

  /** Any two distinct files of one size whose entries are among `entries` share a group. */
  predicate GroupsCover(files: seq<PathDetails>, entries: seq<SizeIdx>, gs: seq<NameBasedGroup>) {
    forall i, j ::
      (0 <= i < |files| && 0 <= j < |files| && i != j && files[i].size == files[j].size &&
       SizeIdx(files[i].size, i) in entries && SizeIdx(files[j].size, j) in entries)
        ==> InSameGroup(gs, i, j)
  }

  /** The groups `gs` made from the entries of a bucket are what the grouper promises for
      them: well-formed, drawn from those entries, disjoint and covering them. */
  predicate SoundGroups(
    files: seq<PathDetails>, bucket: seq<nat>, entries: seq<SizeIdx>, gs: seq<NameBasedGroup>)
  {
    AllWellFormed(files, gs) && GroupsFrom(files, bucket, entries, gs) && Disjoint(gs)
    && GroupsCover(files, entries, gs)
  }

  /** The groups of a bucket's runs are well-formed groups of files from the bucket, no two
      share a file, each file in them has its entry among the runs, and two distinct files of
      one size whose entries are among the runs share a group. */
  lemma {:induction false} RunGroupsSound(
    files: seq<PathDetails>, bucket: seq<nat>, runs: seq<seq<SizeIdx>>)
    requires OneName(files, bucket) && BucketRuns(files, bucket, runs)
    ensures forall t :: 0 <= t < |runs| ==> InRange(files, Indices(runs[t]))
    ensures SoundGroups(files, bucket, Flatten(runs), RunGroups(files, runs))
  {
    RunsInRange(files, bucket, runs);
    if runs != [] {
      var init, r := runs[..|runs| - 1], runs[|runs| - 1];
      BucketRunsPrefix(files, bucket, runs);
      RunGroupsSound(files, bucket, init);
      FlattenAppend(init, r);
      assert runs == init + [r];
      var old_ := RunGroups(files, init);
      var new_ := if |r| > 1 then [GroupOf(files, r)] else [];
      assert RunGroups(files, runs) == old_ + new_;
      if |r| > 1 {
        GroupOfRun(files, bucket, r);
      }
      RunGroupsStep(files, bucket, runs, old_, new_);
    }
  }

  /** The runs but the last of a bucket's runs are runs of the bucket too. */
  lemma BucketRunsPrefix(files: seq<PathDetails>, bucket: seq<nat>, runs: seq<seq<SizeIdx>>)
    requires BucketRuns(files, bucket, runs) && runs != []
    ensures BucketRuns(files, bucket, runs[..|runs| - 1])
  {
    var init := runs[..|runs| - 1];
    assert forall t :: 0 <= t < |init| ==> init[t] == runs[t];
  }

  /** The inductive step of `RunGroupsSound`, for the last run. */
  lemma RunGroupsStep(
    files: seq<PathDetails>, bucket: seq<nat>, runs: seq<seq<SizeIdx>>,
    old_: seq<NameBasedGroup>, new_: seq<NameBasedGroup>)
    requires SizeRuns(runs) && runs != []
    requires forall t, k :: 0 <= t < |runs| && 0 <= k < |runs[t]| ==>
      runs[t][k].idx < |files| && runs[t][k].size == files[runs[t][k].idx].size
    requires Flatten(runs) == Flatten(runs[..|runs| - 1]) + runs[|runs| - 1]
    requires SoundGroups(files, bucket, Flatten(runs[..|runs| - 1]), old_)
    requires new_ == [] || |new_| == 1
    requires |runs[|runs| - 1]| > 1 <==> new_ != []
    requires new_ != [] ==> WellFormedGroup(files, new_[0])
    requires new_ != [] ==> forall i :: i in new_[0].duplicates ==>
      i in bucket && i < |files| && SizeIdx(files[i].size, i) in runs[|runs| - 1]
    requires new_ != [] ==> forall i ::
      (0 <= i < |files| && SizeIdx(files[i].size, i) in runs[|runs| - 1]) ==>
        i in new_[0].duplicates
    ensures SoundGroups(files, bucket, Flatten(runs), old_ + new_)
  {
    StepWellFormed(files, bucket, runs, old_, new_);
    StepDisjoint(files, bucket, runs, old_, new_);
    StepCover(files, bucket, runs, old_, new_);
  }

  /** The first half of `RunGroupsStep`: the groups stay well-formed and drawn from the
      entries. */
  lemma StepWellFormed(
    files: seq<PathDetails>, bucket: seq<nat>, runs: seq<seq<SizeIdx>>,
    old_: seq<NameBasedGroup>, new_: seq<NameBasedGroup>)
    requires runs != [] && Flatten(runs) == Flatten(runs[..|runs| - 1]) + runs[|runs| - 1]
    requires AllWellFormed(files, old_) && GroupsFrom(files, bucket, Flatten(runs[..|runs| - 1]), old_)
    requires new_ == [] || |new_| == 1
    requires new_ != [] ==> WellFormedGroup(files, new_[0])
    requires new_ != [] ==> forall i :: i in new_[0].duplicates ==>
      i in bucket && i < |files| && SizeIdx(files[i].size, i) in runs[|runs| - 1]
    ensures AllWellFormed(files, old_ + new_)
    ensures GroupsFrom(files, bucket, Flatten(runs), old_ + new_)
  {
    var gs := old_ + new_;
    forall k | 0 <= k < |gs|
      ensures WellFormedGroup(files, gs[k])
    {
      if k < |old_| {
        assert gs[k] == old_[k];
      } else {
        assert k == |old_| && new_ != [];
        assert gs[k] == new_[0];
      }
    }
    forall k: int, i: nat | 0 <= k < |gs| && i in gs[k].duplicates
      ensures i in bucket && i < |files| && SizeIdx(files[i].size, i) in Flatten(runs)
    {
      if k < |old_| {
        assert gs[k] == old_[k];
        assert i in old_[k].duplicates;
      } else {
        assert k == |old_| && new_ != [];
        assert gs[k] == new_[0];
        assert i in new_[0].duplicates;
      }
    }
  }

  /** The group of the last run shares no file with the groups of the earlier runs, whose
      entries are all smaller. */
  lemma StepDisjoint(
    files: seq<PathDetails>, bucket: seq<nat>, runs: seq<seq<SizeIdx>>,
    old_: seq<NameBasedGroup>, new_: seq<NameBasedGroup>)
    requires SizeRuns(runs) && runs != []
    requires forall t, k :: 0 <= t < |runs| && 0 <= k < |runs[t]| ==>
      runs[t][k].idx < |files| && runs[t][k].size == files[runs[t][k].idx].size
    requires AllWellFormed(files, old_) && Disjoint(old_)
    requires GroupsFrom(files, bucket, Flatten(runs[..|runs| - 1]), old_)
    requires new_ == [] || |new_| == 1
    requires new_ != [] ==> forall i :: i in new_[0].duplicates ==>
      i < |files| && SizeIdx(files[i].size, i) in runs[|runs| - 1]
    ensures Disjoint(old_ + new_)
  {
    var gs := old_ + new_;
    forall k1: int, k2: int, i: nat | 0 <= k1 < k2 < |gs| && i in gs[k1].duplicates
      ensures i !in gs[k2].duplicates
    {
      if k2 == |old_| {
        assert gs[k1] == old_[k1];
        assert i in old_[k1].duplicates;
        EarlierRunsSmaller(runs, SizeIdx(files[i].size, i));
      } else {
        assert gs[k1] == old_[k1] && gs[k2] == old_[k2];
      }
    }
  }

  /** Two files of one size with entries among the runs share a group: in the earlier runs
      by the groups made so far, in the last run by its own group. */
  lemma StepCover(
    files: seq<PathDetails>, bucket: seq<nat>, runs: seq<seq<SizeIdx>>,
    old_: seq<NameBasedGroup>, new_: seq<NameBasedGroup>)
    requires SizeRuns(runs) && runs != []
    requires forall t, k :: 0 <= t < |runs| && 0 <= k < |runs[t]| ==>
      runs[t][k].idx < |files| && runs[t][k].size == files[runs[t][k].idx].size
    requires Flatten(runs) == Flatten(runs[..|runs| - 1]) + runs[|runs| - 1]
    requires GroupsCover(files, Flatten(runs[..|runs| - 1]), old_)
    requires new_ == [] || |new_| == 1
    requires |runs[|runs| - 1]| > 1 <==> new_ != []
    requires new_ != [] ==> forall i ::
      (0 <= i < |files| && SizeIdx(files[i].size, i) in runs[|runs| - 1]) ==>
        i in new_[0].duplicates
    ensures GroupsCover(files, Flatten(runs), old_ + new_)
  {
    var init, r := runs[..|runs| - 1], runs[|runs| - 1];
    var gs := old_ + new_;
    forall i, j | 0 <= i < |files| && 0 <= j < |files| && i != j &&
      files[i].size == files[j].size &&
      SizeIdx(files[i].size, i) in Flatten(runs) && SizeIdx(files[j].size, j) in Flatten(runs)
      ensures InSameGroup(gs, i, j)
    {
      var xi, xj := SizeIdx(files[i].size, i), SizeIdx(files[j].size, j);
      InSameGroupAppend(old_, new_, i, j);
      if xi in Flatten(init) && xj in Flatten(init) {
      } else if xi in r && xj in r {
        assert xi != xj;
        assert i in new_[0].duplicates && j in new_[0].duplicates;
      } else {
        var inner := if xi in Flatten(init) then xi else xj;
        EarlierRunsSmaller(runs, inner);
        assert false;
      }
    }
  }

  /** The runs cut from a bucket's entries meet `BucketRuns`, and every file of the bucket has
      its entry among them. */
  lemma RunsOfBucket(
    files: seq<PathDetails>, bucket: seq<nat>, fileSizes: seq<SizeIdx>, runs: seq<seq<SizeIdx>>)
    requires InRange(files, bucket) && StrictlyAscending(bucket) && |fileSizes| == |bucket|
    requires forall m :: 0 <= m < |bucket| ==>
      fileSizes[m] == SizeIdx(files[bucket[m]].size, bucket[m])
    requires multiset(Flatten(runs)) == multiset(fileSizes) && SizeRuns(runs)
    ensures BucketRuns(files, bucket, runs)
    ensures forall i :: i in bucket ==> i < |files| && SizeIdx(files[i].size, i) in Flatten(runs)
  {
    forall t, k | 0 <= t < |runs| && 0 <= k < |runs[t]|
      ensures Faithful(files, bucket, runs[t][k])
    {
      var x := runs[t][k];
      FlattenMember(runs, x);
      assert x in multiset(fileSizes);
      var m :| 0 <= m < |fileSizes| && fileSizes[m] == x;
    }
    assert Distinct(fileSizes) by {
      forall p, q | 0 <= p < q < |fileSizes|
        ensures fileSizes[p] != fileSizes[q]
      {
        assert fileSizes[p].idx == bucket[p] < bucket[q] == fileSizes[q].idx;
      }
    }
    DistinctPermutation(fileSizes, Flatten(runs));
    forall t | 0 <= t < |runs|
      ensures Distinct(runs[t])
    {
      forall p, q | 0 <= p < q < |runs[t]|
        ensures runs[t][p] != runs[t][q]
      {
        if runs[t][p] == runs[t][q] {
          RepeatCount(runs[t], p, q);
          FlattenContains(runs, t);
          DistinctCount(Flatten(runs), runs[t][p]);
          assert false;
        }
      }
    }
    forall i | i in bucket
      ensures i < |files| && SizeIdx(files[i].size, i) in Flatten(runs)
    {
      var m :| 0 <= m < |bucket| && bucket[m] == i;
      assert fileSizes[m] in multiset(fileSizes);
    }
  }

  /** The groups one name bucket contributes (lines 520-539): well-formed groups of files
      from the bucket, no two sharing a file, such that any two distinct files of the bucket
      with the same size share a group. */
  method GroupBucket(allFiles: seq<PathDetails>, bucket: seq<nat>)
    returns (groups: seq<NameBasedGroup>)
    requires OneName(allFiles, bucket) && StrictlyAscending(bucket)
    ensures AllWellFormed(allFiles, groups)
    ensures forall k, i :: 0 <= k < |groups| && i in groups[k].duplicates ==> i in bucket
    ensures Disjoint(groups)
    ensures forall i, j ::
      (i in bucket && j in bucket && i != j && i < |allFiles| && j < |allFiles| &&
       allFiles[i].size == allFiles[j].size) ==> InSameGroup(groups, i, j)
  {
    groups := [];
    if |bucket| > 1 {
      var fileSizes := PairSizes(allFiles, bucket);
      var splitPaths := SplitBasedOnSize(fileSizes);
      RunsOfBucket(allFiles, bucket, fileSizes, splitPaths);
      RunsInRange(allFiles, bucket, splitPaths);
      groups := CollectGroups(allFiles, splitPaths);
      RunGroupsSound(allFiles, bucket, splitPaths);
    }
  }

  /** The loop over the runs of one bucket (lines 527-538): one group for each run of more
      than one file, holding the run's files and their total size. */
  method CollectGroups(allFiles: seq<PathDetails>, splitPaths: seq<seq<SizeIdx>>)
    returns (groups: seq<NameBasedGroup>)
    requires forall t :: 0 <= t < |splitPaths| ==> InRange(allFiles, Indices(splitPaths[t]))
    ensures groups == RunGroups(allFiles, splitPaths)
  {
    groups := [];
    var s := 0;
    while s < |splitPaths|
      invariant s <= |splitPaths|
      invariant groups == RunGroups(allFiles, splitPaths[..s])
    {
      assert splitPaths[..s + 1][..s] == splitPaths[..s];
      var el := splitPaths[s];
      if |el| > 1 {
        var idxVec := RunIndices(el);
        var total := GetTotalSize(idxVec, allFiles);
        groups := groups + [NameBasedGroup(idxVec, total)];
      }
      s := s + 1;
    }
    assert splitPaths[..|splitPaths|] == splitPaths;
  }

  /** The size-index pairs of a bucket (lines 523-525), in bucket order. */
  method PairSizes(allFiles: seq<PathDetails>, bucket: seq<nat>) returns (fileSizes: seq<SizeIdx>)
    requires InRange(allFiles, bucket)
    ensures |fileSizes| == |bucket|
    ensures forall m :: 0 <= m < |bucket| ==>
      fileSizes[m] == SizeIdx(allFiles[bucket[m]].size, bucket[m])
  {
    fileSizes := [];
    for k := 0 to |bucket|
      invariant |fileSizes| == k
      invariant forall m :: 0 <= m < k ==>
        fileSizes[m] == SizeIdx(allFiles[bucket[m]].size, bucket[m])
    {
      fileSizes := fileSizes + [SizeIdx(allFiles[bucket[k]].size, bucket[k])];
    }
  }

  /** The indices of a run's entries, in order (lines 531-533). */
  method RunIndices(el: seq<SizeIdx>) returns (idxVec: seq<nat>)
    ensures idxVec == Indices(el)
  {
    idxVec := [];
    for m := 0 to |el|
      invariant idxVec == Indices(el[..m])
    {
      idxVec := idxVec + [el[m].idx];
    }
    assert el[..|el|] == el;
  }

  /** Groups that are well-formed and share no file are all different. */
  lemma DisjointDistinct(files: seq<PathDetails>, gs: seq<NameBasedGroup>)
    requires AllWellFormed(files, gs) && Disjoint(gs)
    ensures Distinct(gs)
  {
    forall p, q | 0 <= p < q < |gs|
      ensures gs[p] != gs[q]
    {
      assert gs[p].duplicates[0] in gs[p].duplicates;
    }
  }

  /** Reordering the groups keeps them well-formed, disjoint and complete. */
  lemma GroupingPermutation(files: seq<PathDetails>, a: seq<NameBasedGroup>, b: seq<NameBasedGroup>)
    requires multiset(a) == multiset(b)
    requires AllWellFormed(files, a) && Disjoint(a) && Complete(files, a)
    ensures AllWellFormed(files, b) && Disjoint(b) && Complete(files, b)
  {
    forall k | 0 <= k < |b|
      ensures WellFormedGroup(files, b[k])
    {
      PermutationMember(a, b, b[k]);
    }
    DisjointDistinct(files, a);
    DistinctPermutation(a, b);
    forall k1: int, k2: int, i: nat | 0 <= k1 < k2 < |b| && i in b[k1].duplicates
      ensures i !in b[k2].duplicates
    {
      PermutationMember(a, b, b[k1]);
      PermutationMember(a, b, b[k2]);
      var p1 :| 0 <= p1 < |a| && a[p1] == b[k1];
      var p2 :| 0 <= p2 < |a| && a[p2] == b[k2];
      assert p1 != p2;
    }
    forall i, j | 0 <= i < |files| && 0 <= j < |files| && i != j && SameKey(files, i, j)
      ensures InSameGroup(b, i, j)
    {
      var k :| 0 <= k < |a| && i in a[k].duplicates && j in a[k].duplicates;
      PermutationMember(b, a, a[k]);
      var k' :| 0 <= k' < |b| && b[k'] == a[k];
    }
  }

  /** Every index in the bucket for `name` is a file with that name. */
  lemma InBucket(files: seq<PathDetails>, m: NameMapping, name: string, i: nat)
    requires Buckets(files, m, |files|) && name in m && i in m[name]
    ensures i < |files| && Name(files, i) == name
  {
    var k :| 0 <= k < |m[name]| && m[name][k] == i;
  }

  /** One turn of the loop over the buckets (lines 518-540): the groups of the bucket for
      `name` join those of the buckets already visited. */
  lemma AddBucketGroups(
    files: seq<PathDetails>, fnMapping: NameMapping, unvisited: set<string>, name: string,
    found: seq<NameBasedGroup>, groups: seq<NameBasedGroup>)
    requires Buckets(files, fnMapping, |files|) && unvisited <= fnMapping.Keys
    requires name in unvisited
    requires AllWellFormed(files, found) && Disjoint(found)
    requires forall k: int, i: nat :: 0 <= k < |found| && i in found[k].duplicates ==>
      i < |files| && Name(files, i) in fnMapping && Name(files, i) !in unvisited
    requires forall i, j ::
      (0 <= i < |files| && 0 <= j < |files| && i != j && SameKey(files, i, j) &&
       Name(files, i) !in unvisited) ==> InSameGroup(found, i, j)
    requires AllWellFormed(files, groups) && Disjoint(groups)
    requires forall k, i :: 0 <= k < |groups| && i in groups[k].duplicates ==> i in fnMapping[name]
    requires forall i, j ::
      (i in fnMapping[name] && j in fnMapping[name] && i != j && i < |files| && j < |files| &&
       files[i].size == files[j].size) ==> InSameGroup(groups, i, j)
    ensures AllWellFormed(files, found + groups)
    ensures forall k: int, i: nat :: 0 <= k < |found + groups| && i in (found + groups)[k].duplicates ==>
      i < |files| && Name(files, i) in fnMapping && Name(files, i) !in unvisited - {name}
    ensures Disjoint(found + groups)
    ensures forall i, j ::
      (0 <= i < |files| && 0 <= j < |files| && i != j && SameKey(files, i, j) &&
       Name(files, i) !in unvisited - {name}) ==> InSameGroup(found + groups, i, j)
  {
    var gs := found + groups;
    forall k: int, i: nat | 0 <= k < |gs| && i in gs[k].duplicates
      ensures i < |files| && Name(files, i) in fnMapping && Name(files, i) !in unvisited - {name}
    {
      if k < |found| {
        assert gs[k] == found[k];
      } else {
        assert gs[k] == groups[k - |found|];
        InBucket(files, fnMapping, name, i);
      }
    }
    forall k | 0 <= k < |gs|
      ensures WellFormedGroup(files, gs[k])
    {
      if k < |found| {
        assert gs[k] == found[k];
      } else {
        assert gs[k] == groups[k - |found|];
      }
    }
    forall k1: int, k2: int, i: nat | 0 <= k1 < k2 < |gs| && i in gs[k1].duplicates
      ensures i !in gs[k2].duplicates
    {
      if k2 < |found| {
        assert gs[k1] == found[k1] && gs[k2] == found[k2];
      } else if k1 >= |found| {
        assert gs[k1] == groups[k1 - |found|] && gs[k2] == groups[k2 - |found|];
      } else {
        assert gs[k1] == found[k1] && gs[k2] == groups[k2 - |found|];
        if i in gs[k2].duplicates {
          InBucket(files, fnMapping, name, i);
          assert false;
        }
      }
    }
    forall i, j |
      0 <= i < |files| && 0 <= j < |files| && i != j && SameKey(files, i, j) &&
      Name(files, i) !in unvisited - {name}
      ensures InSameGroup(gs, i, j)
    {
      InSameGroupAppend(found, groups, i, j);
      if Name(files, i) == name {
        assert i in fnMapping[name] && j in fnMapping[name];
      }
    }
  }

  function NegatedTotal(g: NameBasedGroup): int {
    0 - g.totalSize as int
  }

  /** `filterAndGroupFiles` (lines 504-551), without its timing: every group holds at least
      two distinct files, all with the same base name and size, and their total size; no
      file is in two groups; any two distinct files with the same base name and size share a
      group; and the groups are ranked by total size, largest first. */
  method FilterAndGroupFiles(allFiles: seq<PathDetails>) returns (grouping: seq<NameBasedGroup>)
    ensures AllWellFormed(allFiles, grouping)
    ensures Disjoint(grouping)
    ensures Complete(allFiles, grouping)
    ensures forall p, q :: 0 <= p < q < |grouping| ==>
      grouping[p].totalSize >= grouping[q].totalSize
  {
    var fnMapping := MapFileNames(allFiles);
    var found: seq<NameBasedGroup> := [];
    var unvisited := fnMapping.Keys;
    while unvisited != {}
      invariant unvisited <= fnMapping.Keys
      invariant AllWellFormed(allFiles, found)
      invariant forall k: int, i: nat :: 0 <= k < |found| && i in found[k].duplicates ==>
        i < |allFiles| && Name(allFiles, i) in fnMapping && Name(allFiles, i) !in unvisited
      invariant Disjoint(found)
      invariant forall i, j ::
        (0 <= i < |allFiles| && 0 <= j < |allFiles| && i != j && SameKey(allFiles, i, j) &&
         Name(allFiles, i) !in unvisited) ==> InSameGroup(found, i, j)
      decreases |unvisited|
    {
      var name :| name in unvisited;
      var bucket := fnMapping[name];
      var groups := GroupBucket(allFiles, bucket);
      AddBucketGroups(allFiles, fnMapping, unvisited, name, found, groups);
      found := found + groups;
      unvisited := unvisited - {name};
    }
    grouping := SortByKey(found, NegatedTotal);
    GroupingPermutation(allFiles, found, grouping);
    forall p, q | 0 <= p < q < |grouping|
      ensures grouping[p].totalSize >= grouping[q].totalSize
    {
      assert NegatedTotal(grouping[p]) <= NegatedTotal(grouping[q]);
    }
  }

  // ---------------------------------------------------------------------------------------
  // What the grouping is

  /** A group is exactly the set of files with the same base name and size as any one of its
      members: the groups are the classes of that relation with at least two files. */
  lemma GroupsAreClasses(files: seq<PathDetails>, gs: seq<NameBasedGroup>, k: nat, i: nat, j: nat)
    requires AllWellFormed(files, gs) && Disjoint(gs) && Complete(files, gs)
    requires k < |gs| && i in gs[k].duplicates && j < |files|
    ensures i < |files|
    ensures j in gs[k].duplicates <==> SameKey(files, i, j)
  {
    var d := gs[k].duplicates;
    var p :| 0 <= p < |d| && d[p] == i;
    if j in d {
      var q :| 0 <= q < |d| && d[q] == j;
      assert SameKey(files, d[p], d[q]);
    }
  }

  /** When exactly one pair of files, `a` and `b`, share base name and size, the grouping is
      that one pair, with twice the size as its total. */
  lemma OnlyPair(files: seq<PathDetails>, gs: seq<NameBasedGroup>, a: nat, b: nat)
    requires a < b < |files| && SameKey(files, a, b)
    requires forall i, j :: 0 <= i < |files| && 0 <= j < |files| && i != j && SameKey(files, i, j) ==>
      (i == a && j == b) || (i == b && j == a)
    requires AllWellFormed(files, gs) && Disjoint(gs) && Complete(files, gs)
    ensures |gs| == 1
    ensures gs[0].duplicates == [a, b] || gs[0].duplicates == [b, a]
    ensures gs[0].totalSize == 2 * files[a].size
  {
    assert InSameGroup(gs, a, b);
    var k :| 0 <= k < |gs| && a in gs[k].duplicates && b in gs[k].duplicates;
    forall k' | 0 <= k' < |gs|
      ensures gs[k'].duplicates == [a, b] || gs[k'].duplicates == [b, a]
    {
      PairGroup(files, gs[k'], a, b);
    }
    SecondGroupLacks(gs, a);
    PairTotal(files, gs[0], a, b);
  }

  /** The group of just `a` and `b`, which have one size, has twice that size as its total. */
  lemma PairTotal(files: seq<PathDetails>, g: NameBasedGroup, a: nat, b: nat)
    requires a < |files| && b < |files| && WellFormedGroup(files, g)
    requires g.duplicates == [a, b] || g.duplicates == [b, a]
    ensures g.totalSize == 2 * files[a].size
  {
    var d := g.duplicates;
    assert SameKey(files, d[0], d[1]);
    assert d[..1] == [d[0]] && [d[0]][..0] == [];
    assert SumSizes(files, [d[0]]) == files[d[0]].size;
  }

  /** When the first two of disjoint groups are considered, a file of the first is not in the
      second. */
  lemma SecondGroupLacks(gs: seq<NameBasedGroup>, a: nat)
    requires Disjoint(gs)
    ensures |gs| > 1 && a in gs[0].duplicates ==> a !in gs[1].duplicates
  {
  }

  /** A well-formed group of files where only `a` and `b` share base name and size is the
      pair `a`, `b`. */
  lemma PairGroup(files: seq<PathDetails>, g: NameBasedGroup, a: nat, b: nat)
    requires a < b < |files|
    requires forall i, j :: 0 <= i < |files| && 0 <= j < |files| && i != j && SameKey(files, i, j) ==>
      (i == a && j == b) || (i == b && j == a)
    requires WellFormedGroup(files, g)
    ensures g.duplicates == [a, b] || g.duplicates == [b, a]
  {
    var d := g.duplicates;
    assert SameKey(files, d[0], d[1]) && d[0] != d[1];
    assert d == [d[0], d[1]];
  }

  /** The worked example of the grouping: of the records `a.txt` (10 bytes), `a.txt` (10),
      `a.txt` (20), `b.txt` (10) and `c.txt` (10), only the first two form a group, of total
      size 20. */
  lemma GroupingExample(gs: seq<NameBasedGroup>)
    requires AllWellFormed(ExampleFiles(), gs) && Disjoint(gs) && Complete(ExampleFiles(), gs)
    ensures |gs| == 1
    ensures gs[0].duplicates == [0, 1] || gs[0].duplicates == [1, 0]
    ensures gs[0].totalSize == 20
  {
    var files := ExampleFiles();
    ExampleKeys();
    OnlyPair(files, gs, 0, 1);
  }

  function ExampleFiles(): seq<PathDetails> {
    [PathDetails("a.txt", 10), PathDetails("a.txt", 10), PathDetails("a.txt", 20),
     PathDetails("b.txt", 10), PathDetails("c.txt", 10)]
  }

  /** The base names of the example records: `a.txt` three times, then `b.txt` and `c.txt`. */
  lemma ExampleNames()
    ensures forall i :: 0 <= i < 5 ==> Name(ExampleFiles(), i) == ExampleFiles()[i].path
    ensures ExampleFiles()[0].path == ExampleFiles()[1].path == ExampleFiles()[2].path == "a.txt"
    ensures ExampleFiles()[3].path == "b.txt" && ExampleFiles()[4].path == "c.txt"
  {
    forall i | 0 <= i < 5
      ensures Name(ExampleFiles(), i) == ExampleFiles()[i].path
    {
      var path := ExampleFiles()[i].path;
      assert path == "a.txt" || path == "b.txt" || path == "c.txt";
      FileNameWithoutSlash(path);
    }
  }

  /** Of the example records, only the first two share base name and size. */
  lemma ExampleKeys()
    ensures SameKey(ExampleFiles(), 0, 1)
    ensures forall i, j :: 0 <= i < 5 && 0 <= j < 5 && i != j && SameKey(ExampleFiles(), i, j) ==>
      (i == 0 && j == 1) || (i == 1 && j == 0)
  {
    ExampleNames();
    assert "a.txt"[0] != "b.txt"[0] && "a.txt"[0] != "c.txt"[0] && "b.txt"[0] != "c.txt"[0];
  }

  /** Two empty files with the same name are duplicates: together they form the only group,
      of total size 0. */
  lemma ZeroByteExample(gs: seq<NameBasedGroup>)
    requires AllWellFormed([PathDetails("a", 0), PathDetails("a", 0)], gs)
    requires Disjoint(gs) && Complete([PathDetails("a", 0), PathDetails("a", 0)], gs)
    ensures |gs| == 1
    ensures gs[0].duplicates == [0, 1] || gs[0].duplicates == [1, 0]
    ensures gs[0].totalSize == 0
  {
    var files := [PathDetails("a", 0), PathDetails("a", 0)];
    assert SameKey(files, 0, 1);
    OnlyPair(files, gs, 0, 1);
  }
}
