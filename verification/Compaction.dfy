/** Compaction of small Parquet files. A table is its list of rows; the size a written file gets is an input. */
module Compaction {
  import opened Relational
  import opened TextOrder

  datatype Path = Path(dir: seq<string>, name: string)
  datatype File<T> = File(rows: seq<T>, size: nat)

  datatype Summary = Summary(
    inputFiles: nat, outputFiles: nat, inputBytes: nat, outputBytes: nat, inputRows: nat, outputRows: nat,
    targetMb: int)

  datatype Result = Done(summary: Summary) | FileNotFound

  const MIB := 1024 * 1024
  const SUFFIX := ".parquet"

  predicate Parquet(p: Path) { |p.name| >= |SUFFIX| && p.name[|p.name| - |SUFFIX|..] == SUFFIX }

  /** `src.rglob` and `out.glob`. */
  predicate Under(src: seq<string>, p: Path) { Parquet(p) && src <= p.dir }
  predicate Inside(out: seq<string>, p: Path) { Parquet(p) && p.dir == out }

  /** The source's listing: each file under `src` once. Its order is left open. */
  ghost predicate Lists<T>(files: map<Path, File<T>>, src: seq<string>, inputs: seq<Path>) {
    NoRepeat(inputs) && forall p :: p in inputs <==> p in files && Under(src, p)
  }

  // ------------------------------------------------------------------ file names

  function Digits(n: nat): string {
    if n < 10 then [n as char + '0'] else Digits(n / 10) + [(n % 10) as char + '0']
  }

  function Zeros(k: nat): string { if k == 0 then "" else "0" + Zeros(k - 1) }

  function PartNumber(i: nat): string { Zeros(if |Digits(i)| < 5 then 5 - |Digits(i)| else 0) + Digits(i) }

  function PartPath(out: seq<string>, i: nat): Path { Path(out, "part-" + PartNumber(i) + SUFFIX) }

  lemma {:induction false} DigitsHaveValue(n: nat)
    ensures ValueOf(Digits(n)) == n
  {
    if n < 10 {
      assert Digits(n)[..0] == "";
      assert ValueOf("") == 0;
    } else {
      DigitsHaveValue(n / 10);
      assert Digits(n)[..|Digits(n)| - 1] == Digits(n / 10);
    }
  }

  lemma {:induction false} ZerosAddNothing(k: nat, s: string)
    ensures ValueOf(Zeros(k) + s) == ValueOf(s)
  {
    if s != "" {
      assert (Zeros(k) + s)[..|Zeros(k) + s| - 1] == Zeros(k) + s[..|s| - 1];
      ZerosAddNothing(k, s[..|s| - 1]);
    } else if k > 0 {
      assert Zeros(k) + s == Zeros(k);
      OnlyZeros(k);
    } else {
      assert Zeros(k) + s == s;
    }
  }

  lemma {:induction false} OnlyZeros(k: nat)
    ensures ValueOf(Zeros(k)) == 0
  {
    if k > 0 {
      OnlyZeros(k - 1);
      ZerosShift(k - 1);
      assert (Zeros(k - 1) + "0")[..|Zeros(k - 1)|] == Zeros(k - 1);
    }
  }

  lemma {:induction false} ZerosShift(k: nat)
    ensures "0" + Zeros(k) == Zeros(k) + "0"
  {
    if k > 0 { ZerosShift(k - 1); }
  }

  /** Different buckets write different files. */
  lemma {:induction false} PartPathsDiffer(out: seq<string>, i: nat, j: nat)
    requires PartPath(out, i) == PartPath(out, j)
    ensures i == j
  {
    var a, b := PartNumber(i), PartNumber(j);
    assert ("part-" + a + SUFFIX)[5..|a| + 5] == a && ("part-" + b + SUFFIX)[5..|b| + 5] == b;
    ZerosAddNothing(if |Digits(i)| < 5 then 5 - |Digits(i)| else 0, Digits(i));
    ZerosAddNothing(if |Digits(j)| < 5 then 5 - |Digits(j)| else 0, Digits(j));
    DigitsHaveValue(i);
    DigitsHaveValue(j);
  }

  lemma {:induction false} PartIsInside(out: seq<string>, i: nat)
    ensures Inside(out, PartPath(out, i))
  {
    var name := PartPath(out, i).name;
    assert name[|name| - |SUFFIX|..] == SUFFIX;
  }

  // ------------------------------------------------------------------ buckets

  function BucketCount(totalBytes: int, targetBytes: int, maxBuckets: int): int {
    if totalBytes <= 0 || targetBytes <= 0 then 1
    else
      var wanted := (totalBytes + targetBytes - 1) / targetBytes;
      var capped := if maxBuckets < wanted then maxBuckets else wanted;
      if capped > 1 then capped else 1
  }

  /** At least one file, never more than inputs; and unless capped, the fewest whose average size is at
      most the target. */
  lemma {:induction false} BucketCountMeaning(totalBytes: int, targetBytes: int, maxBuckets: int)
    requires maxBuckets >= 1
    ensures var b := BucketCount(totalBytes, targetBytes, maxBuckets);
      && 1 <= b <= maxBuckets
      && (totalBytes > 0 && targetBytes > 0 && b < maxBuckets ==> (b - 1) * targetBytes < totalBytes <= b * targetBytes)
      && (totalBytes > 0 && targetBytes > 0 && b == maxBuckets ==> (b - 1) * targetBytes < totalBytes || b == 1)
  {
    if totalBytes > 0 && targetBytes > 0 {
      var wanted := (totalBytes + targetBytes - 1) / targetBytes;
      var rest := (totalBytes + targetBytes - 1) % targetBytes;
      assert totalBytes + targetBytes - 1 == targetBytes * wanted + rest;
      assert (wanted - 1) * targetBytes == targetBytes * wanted - targetBytes;
      assert wanted >= 1;
      var b := BucketCount(totalBytes, targetBytes, maxBuckets);
      assert (wanted - b) * targetBytes >= 0;
      assert (b - 1) * targetBytes == (wanted - 1) * targetBytes - (wanted - b) * targetBytes;
    }
  }

  function Empties<T>(b: nat): (r: seq<seq<seq<T>>>)
    ensures |r| == b && forall k | 0 <= k < b :: r[k] == []
  {
    if b == 0 then [] else Empties(b - 1) + [[]]
  }

  /** Tables dealt round-robin into `b` buckets. */
  function Dealt<T>(tables: seq<seq<T>>, b: nat): (r: seq<seq<seq<T>>>)
    requires b > 0
    ensures |r| == b
  {
    if tables == [] then Empties(b)
    else
      var before := Dealt(tables[..|tables| - 1], b);
      var k := (|tables| - 1) % b;
      before[k := before[k] + [tables[|tables| - 1]]]
  }

  function Merged<T>(tables: seq<seq<T>>): seq<T> {
    if tables == [] then [] else Merged(tables[..|tables| - 1]) + tables[|tables| - 1]
  }

  lemma {:induction false} DivStep(n: nat, b: nat)
    requires b > 0
    ensures n % b + 1 < b ==> (n + 1) / b == n / b && (n + 1) % b == n % b + 1
    ensures n % b + 1 == b ==> (n + 1) / b == n / b + 1 && (n + 1) % b == 0
  {
    var q, r := n / b, n % b;
    assert n == b * q + r;
    if r + 1 < b {
      Unique(n + 1, b, q, r + 1);
    } else {
      assert b * (q + 1) == b * q + b;
      Unique(n + 1, b, q + 1, 0);
    }
  }

  lemma {:induction false} AtLeastOnce(b: nat, d: int)
    ensures d >= 1 ==> b * d >= b
    ensures d <= -1 ==> b * d <= 0 - b
  {
    if d >= 1 { assert b * (d - 1) >= 0; }
    if d <= -1 { assert b * (-1 - d) >= 0; }
  }

  lemma {:induction false} Unique(n: nat, b: nat, q: nat, r: nat)
    requires b > 0 && n == b * q + r && r < b
    ensures n / b == q && n % b == r
  {
    var p, s := n / b, n % b;
    assert n == b * p + s && 0 <= s < b;
    assert b * (p - q) == b * p - b * q;
    AtLeastOnce(b, p - q);
  }

  /** Each bucket gets the floor or the ceiling of the average number of inputs. */
  lemma {:induction false} BucketSize<T>(tables: seq<seq<T>>, b: nat, k: nat)
    requires k < b
    ensures |Dealt(tables, b)[k]| == |tables| / b + (if k < |tables| % b then 1 else 0)
  {
    if tables != [] {
      BucketSize(tables[..|tables| - 1], b, k);
      DivStep(|tables| - 1, b);
    } else {
      Unique(0, b, 0, 0);
    }
  }

  /** Table `i` of the inputs is the table `i / b` of bucket `i % b`: input order is kept in each file. */
  lemma {:induction false} DealtAt<T>(tables: seq<seq<T>>, b: nat, i: nat)
    requires b > 0 && i < |tables|
    ensures i / b < |Dealt(tables, b)[i % b]| && Dealt(tables, b)[i % b][i / b] == tables[i]
  {
    var rest := tables[..|tables| - 1];
    if i < |tables| - 1 {
      DealtAt(rest, b, i);
    } else {
      BucketSize(rest, b, i % b);
    }
  }

  function RowsOf<T>(buckets: seq<seq<seq<T>>>): seq<T> {
    if buckets == [] then [] else RowsOf(buckets[..|buckets| - 1]) + Merged(buckets[|buckets| - 1])
  }

  lemma {:induction false} MergedMore<T>(bucket: seq<seq<T>>, t: seq<T>)
    ensures Merged(bucket + [t]) == Merged(bucket) + t
  {
    assert (bucket + [t])[..|bucket|] == bucket;
  }

  lemma {:induction false} RowsOfMore<T>(buckets: seq<seq<seq<T>>>, bucket: seq<seq<T>>)
    ensures RowsOf(buckets + [bucket]) == RowsOf(buckets) + Merged(bucket)
  {
    assert (buckets + [bucket])[..|buckets|] == buckets;
  }

  lemma {:induction false} UpdateInFront<T>(front: seq<T>, last: T, k: nat, x: T)
    requires k < |front|
    ensures (front + [last])[k := x] == front[k := x] + [last]
  {}

  lemma {:induction false} UpdateLast<T>(front: seq<T>, last: T, x: T)
    ensures (front + [last])[|front| := x] == front + [x]
  {}

  lemma {:induction false} AddTable<T>(buckets: seq<seq<seq<T>>>, k: nat, t: seq<T>)
    requires k < |buckets|
    ensures multiset(RowsOf(buckets[k := buckets[k] + [t]])) == multiset(RowsOf(buckets)) + multiset(t)
  {
    var n := |buckets| - 1;
    var front, last := buckets[..n], buckets[n];
    assert buckets == front + [last];
    RowsOfMore(front, last);
    if k == n {
      UpdateLast(front, last, last + [t]);
      RowsOfMore(front, last + [t]);
      MergedMore(last, t);
    } else {
      AddTable(front, k, t);
      var changed := front[k := front[k] + [t]];
      UpdateInFront(front, last, k, front[k] + [t]);
      RowsOfMore(changed, last);
    }
  }

  lemma {:induction false} NoRows<T>(b: nat)
    ensures RowsOf<T>(Empties(b)) == []
  {
    if b > 0 { NoRows<T>(b - 1); assert Empties<T>(b)[..b - 1] == Empties(b - 1); }
  }

  lemma {:induction false} DealingKeepsRows<T>(tables: seq<seq<T>>, b: nat)
    requires b > 0
    ensures multiset(RowsOf(Dealt(tables, b))) == multiset(Merged(tables))
  {
    if tables == [] {
      NoRows<T>(b);
    } else {
      DealingKeepsRows(tables[..|tables| - 1], b);
      AddTable(Dealt(tables[..|tables| - 1], b), (|tables| - 1) % b, tables[|tables| - 1]);
    }
  }

  // ------------------------------------------------------------------ the whole job

  class Disk<T(==)> {
    var files: map<Path, File<T>>

    constructor (files: map<Path, File<T>>)
      ensures this.files == files
    {
      this.files := files;
    }
  }

  function Stale<T>(files: map<Path, File<T>>, out: seq<string>): set<Path> { set p | p in files && Inside(out, p) }

  predicate AllIn<T>(files: map<Path, File<T>>, paths: seq<Path>) { forall i | 0 <= i < |paths| :: paths[i] in files }

  function Tables<T>(files: map<Path, File<T>>, paths: seq<Path>): (r: seq<seq<T>>)
    requires AllIn(files, paths)
    ensures |r| == |paths| && forall i | 0 <= i < |r| :: r[i] == files[paths[i]].rows
  {
    if paths == [] then [] else Tables(files, paths[..|paths| - 1]) + [files[paths[|paths| - 1]].rows]
  }

  function Bytes<T>(files: map<Path, File<T>>, paths: seq<Path>): nat
    requires AllIn(files, paths)
  {
    if paths == [] then 0 else Bytes(files, paths[..|paths| - 1]) + files[paths[|paths| - 1]].size
  }

  function RowCount<T>(tables: seq<seq<T>>): nat {
    if tables == [] then 0 else RowCount(tables[..|tables| - 1]) + |tables[|tables| - 1]|
  }

  /** What the write loop leaves behind and counts; an empty bucket would be skipped. */
  datatype Output<T> = Output(files: map<Path, File<T>>, written: nat, bytes: nat)

  function Write<T>(out: seq<string>, sizeOf: seq<T> -> nat, start: map<Path, File<T>>,
      buckets: seq<seq<seq<T>>>): Output<T> {
    if buckets == [] then Output(start, 0, 0)
    else
      var n := |buckets| - 1;
      var before := Write(out, sizeOf, start, buckets[..n]);
      if buckets[n] == [] then before
      else
        var merged := Merged(buckets[n]);
        Output(before.files[PartPath(out, n) := File(merged, sizeOf(merged))], before.written + 1, before.bytes
               + sizeOf(merged))
  }

  function TargetBytes(targetMb: int): int { (if targetMb > 1 then targetMb else 1) * MIB }

  function Planned<T>(files: map<Path, File<T>>, inputs: seq<Path>, targetMb: int): (b: nat)
    requires AllIn(files, inputs) && inputs != []
    ensures 1 <= b <= |inputs|
  {
    BucketCountMeaning(Bytes(files, inputs), TargetBytes(targetMb), |inputs|);
    BucketCount(Bytes(files, inputs), TargetBytes(targetMb), |inputs|)
  }

  datatype Job<T> = Job(files: map<Path, File<T>>, result: Result)

  function Compact<T>(files: map<Path, File<T>>, out: seq<string>, targetMb: int, inputs: seq<Path>,
      sizeOf: seq<T> -> nat): Job<T> {
    if inputs == [] then Job(files, Done(Summary(0, 0, 0, 0, 0, 0, targetMb)))
    else
      var left := files - Stale(files, out);
      if !AllIn(left, inputs) then Job(left, FileNotFound)
      else
        var tables := Tables(left, inputs);
        var output := Write(out, sizeOf, left, Dealt(tables, Planned(left, inputs, targetMb)));
        Job(output.files, Done(Summary(|inputs|, output.written, Bytes(left, inputs), output.bytes,
                                       RowCount(tables), RowCount(tables), targetMb)))
  }

  method ReadTables<T>(disk: Disk<T>, inputs: seq<Path>) returns (found: bool, tables: seq<seq<T>>, bytes: nat)
    ensures found <==> AllIn(disk.files, inputs)
    ensures found ==> tables == Tables(disk.files, inputs) && bytes == Bytes(disk.files, inputs)
  {
    tables, bytes := [], 0;
    for i := 0 to |inputs|
      invariant AllIn(disk.files, inputs[..i])
      invariant tables == Tables(disk.files, inputs[..i]) && bytes == Bytes(disk.files, inputs[..i])
    {
      assert inputs[..i + 1][..i] == inputs[..i];
      if inputs[i] !in disk.files { return false, [], 0; }
      tables := tables + [disk.files[inputs[i]].rows];
      bytes := bytes + disk.files[inputs[i]].size;
    }
    assert inputs[..|inputs|] == inputs;
    found := true;
  }

  method Deal<T>(tables: seq<seq<T>>, b: nat) returns (buckets: seq<seq<seq<T>>>, rows: nat)
    requires b > 0
    ensures buckets == Dealt(tables, b) && rows == RowCount(tables)
  {
    buckets, rows := Empties(b), 0;
    for i := 0 to |tables|
      invariant |buckets| == b && buckets == Dealt(tables[..i], b) && rows == RowCount(tables[..i])
    {
      assert tables[..i + 1][..i] == tables[..i];
      buckets := buckets[i % b := buckets[i % b] + [tables[i]]];
      rows := rows + |tables[i]|;
    }
    assert tables[..|tables|] == tables;
  }

  lemma {:induction false} MergedOne<T>(bucket: seq<seq<T>>)
    ensures |bucket| == 1 ==> Merged(bucket) == bucket[0]
  {
    if |bucket| == 1 {
      assert Merged(bucket[..0]) == [];
      assert Merged(bucket) == [] + bucket[0];
    }
  }

  method WriteBuckets<T>(disk: Disk<T>, out: seq<string>, buckets: seq<seq<seq<T>>>, sizeOf: seq<T> -> nat)
    returns (written: nat, bytes: nat)
    modifies disk
    ensures Output(disk.files, written, bytes) == Write(out, sizeOf, old(disk.files), buckets)
  {
    written, bytes := 0, 0;
    for i := 0 to |buckets|
      invariant Output(disk.files, written, bytes) == Write(out, sizeOf, old(disk.files), buckets[..i])
    {
      assert buckets[..i + 1][..i] == buckets[..i];
      if buckets[i] == [] { continue; }
      var merged := if |buckets[i]| > 1 then Merged(buckets[i]) else buckets[i][0];
      MergedOne(buckets[i]);
      disk.files := disk.files[PartPath(out, i) := File(merged, sizeOf(merged))];
      bytes := bytes + disk.files[PartPath(out, i)].size;
      written := written + 1;
    }
    assert buckets[..|buckets|] == buckets;
  }

  method CompactSmallFiles<T>(disk: Disk<T>, src: seq<string>, targetMb: int, output: Cell<seq<string>>,
                              inputs: seq<Path>, sizeOf: seq<T> -> nat)
    returns (r: Result)
    requires Lists(disk.files, src, inputs)
    modifies disk
    ensures var out := if output == Null then src + ["compacted"] else output.v;
      Job(disk.files, r) == Compact(old(disk.files), out, targetMb, inputs, sizeOf)
  {
    var targetBytes := (if targetMb > 1 then targetMb else 1) * MIB;
    var out := if output.Val? then output.v else src + ["compacted"];
    if inputs == [] { return Done(Summary(0, 0, 0, 0, 0, 0, targetMb)); }
    disk.files := disk.files - Stale(disk.files, out);
    var found, tables, totalBytes := ReadTables(disk, inputs);
    if !found { return FileNotFound; }
    BucketCountMeaning(totalBytes, targetBytes, |inputs|);
    var bucketCount := BucketCount(totalBytes, targetBytes, |inputs|);
    var buckets, totalRows := Deal(tables, bucketCount);
    var written, outputBytes := WriteBuckets(disk, out, buckets, sizeOf);
    return Done(Summary(|inputs|, written, totalBytes, outputBytes, totalRows, totalRows, targetMb));
  }

  // ------------------------------------------------------------------ what the job promises

  /** It succeeds exactly when no source file lies directly in the output directory; otherwise it has
      already deleted those source files when reading fails. */
  lemma {:induction false} SucceedsIff<T>(
      files: map<Path, File<T>>, src: seq<string>, out: seq<string>, targetMb: int, inputs: seq<Path>,
      sizeOf: seq<T> -> nat)
    requires Lists(files, src, inputs)
    ensures var job := Compact(files, out, targetMb, inputs, sizeOf);
      && (job.result.Done? <==> !exists p | p in files :: Under(src, p) && Inside(out, p))
      && (job.result.FileNotFound? ==> job.files == files - Stale(files, out))
  {
    var left := files - Stale(files, out);
    if p :| p in files && Under(src, p) && Inside(out, p) {
      assert p in inputs && p !in left;
      var i :| 0 <= i < |inputs| && inputs[i] == p;
    } else {
      forall i | 0 <= i < |inputs| ensures inputs[i] in left {
        assert inputs[i] in inputs;
        assert Under(src, inputs[i]);
      }
    }
  }

  lemma {:induction false} WrittenFiles<T>(
      out: seq<string>, sizeOf: seq<T> -> nat, start: map<Path, File<T>>, buckets: seq<seq<seq<T>>>, p: Path)
    requires forall k | 0 <= k < |buckets| :: buckets[k] != []
    ensures var o := Write(out, sizeOf, start, buckets);
      && o.written == |buckets|
      && (p in o.files <==> p in start || exists k | 0 <= k < |buckets| :: p == PartPath(out, k))
      && ((forall k | 0 <= k < |buckets| :: p != PartPath(out, k)) && p in start ==> o.files[p] == start[p])
  {
    if buckets != [] {
      var n := |buckets| - 1;
      WrittenFiles(out, sizeOf, start, buckets[..n], p);
      if p == PartPath(out, n) {
        assert 0 <= n < |buckets|;
      }
    }
  }

  lemma {:induction false} WrittenPart<T>(
      out: seq<string>, sizeOf: seq<T> -> nat, start: map<Path, File<T>>, buckets: seq<seq<seq<T>>>, k: nat)
    requires k < |buckets| && forall j | 0 <= j < |buckets| :: buckets[j] != []
    ensures var o := Write(out, sizeOf, start, buckets);
      PartPath(out, k) in o.files && o.files[PartPath(out, k)].rows == Merged(buckets[k])
  {
    var n := |buckets| - 1;
    if k < n {
      WrittenPart(out, sizeOf, start, buckets[..n], k);
      if PartPath(out, k) == PartPath(out, n) { PartPathsDiffer(out, k, n); }
    }
  }

  lemma {:induction false} RowCountIs<T>(tables: seq<seq<T>>)
    ensures RowCount(tables) == |Merged(tables)|
  {
    if tables != [] { RowCountIs(tables[..|tables| - 1]); }
  }

  lemma {:induction false} OneForEach(n: nat, b: nat)
    requires 0 < b <= n
    ensures n / b >= 1
  {
    var q, r := n / b, n % b;
    assert n == b * q + r;
    AtLeastOnce(b, q - 1);
    assert b * (q - 1) == b * q - b;
  }

  lemma {:induction false} NoBucketIsEmpty<T>(tables: seq<seq<T>>, b: nat, k: nat)
    requires k < b <= |tables|
    ensures Dealt(tables, b)[k] != []
  {
    BucketSize(tables, b, k);
    OneForEach(|tables|, b);
  }

  /** A finished job writes exactly the planned number of files, none for an empty bucket, and the dealt
      buckets hold the rows of the inputs. */
  lemma {:induction false} JobKeepsBuckets<T>(
      files: map<Path, File<T>>, src: seq<string>, out: seq<string>, targetMb: int, inputs: seq<Path>,
      sizeOf: seq<T> -> nat)
    requires Lists(files, src, inputs) && inputs != [] && Compact(files, out, targetMb, inputs, sizeOf).result.Done?
    ensures AllIn(files, inputs)
    ensures var job := Compact(files, out, targetMb, inputs, sizeOf);
      var tables, b := Tables(files, inputs), job.result.summary.outputFiles;
      && 1 <= b <= |inputs|
      && b == BucketCount(Bytes(files, inputs), TargetBytes(targetMb), |inputs|)
      && multiset(RowsOf(Dealt(tables, b))) == multiset(Merged(tables))
      && job.result.summary.outputRows == |RowsOf(Dealt(tables, b))|
      && job.result.summary.inputRows == |Merged(tables)|
  {
    var left := files - Stale(files, out);
    SameReads(files, left, inputs);
    var tables, b := Tables(left, inputs), Planned(left, inputs, targetMb);
    forall k | 0 <= k < b ensures Dealt(tables, b)[k] != [] { NoBucketIsEmpty(tables, b, k); }
    WrittenFiles(out, sizeOf, left, Dealt(tables, b), Path([], ""));
    DealingKeepsRows(tables, b);
    RowCountIs(tables);
    assert |multiset(RowsOf(Dealt(tables, b)))| == |RowsOf(Dealt(tables, b))|;
    assert |multiset(Merged(tables))| == |Merged(tables)|;
  }

  lemma {:induction false} SameReads<T>(files: map<Path, File<T>>, left: map<Path, File<T>>, inputs: seq<Path>)
    requires AllIn(left, inputs) && forall p | p in left :: p in files && files[p] == left[p]
    ensures AllIn(files, inputs) && Tables(files, inputs) == Tables(left, inputs)
            && Bytes(files, inputs) == Bytes(left, inputs)
  {
    if inputs != [] { SameReads(files, left, inputs[..|inputs| - 1]); }
  }

  /** The output directory then holds exactly the planned Parquet files, each with its bucket's rows;
      every other file is untouched. */
  lemma {:induction false} JobWritesParts<T>(
      files: map<Path, File<T>>, src: seq<string>, out: seq<string>, targetMb: int, inputs: seq<Path>,
      sizeOf: seq<T> -> nat, p: Path)
    requires Lists(files, src, inputs) && inputs != [] && Compact(files, out, targetMb, inputs, sizeOf).result.Done?
    ensures AllIn(files, inputs)
    ensures var job := Compact(files, out, targetMb, inputs, sizeOf);
      var b := job.result.summary.outputFiles;
      && (Inside(out, p) ==> (p in job.files <==> exists k | 0 <= k < b :: p == PartPath(out, k)))
      && (!Inside(out, p) ==> (p in job.files <==> p in files) && (p in files ==> job.files[p] == files[p]))
  {
    JobKeepsBuckets(files, src, out, targetMb, inputs, sizeOf);
    var left := files - Stale(files, out);
    var tables, b := Tables(left, inputs), Planned(left, inputs, targetMb);
    forall k | 0 <= k < b ensures Dealt(tables, b)[k] != [] { NoBucketIsEmpty(tables, b, k); }
    WrittenFiles(out, sizeOf, left, Dealt(tables, b), p);
    forall k | 0 <= k < b ensures Inside(out, PartPath(out, k)) { PartIsInside(out, k); }
  }

  lemma {:induction false} PartHoldsItsBucket<T>(
      files: map<Path, File<T>>, src: seq<string>, out: seq<string>, targetMb: int, inputs: seq<Path>,
      sizeOf: seq<T> -> nat, k: nat)
    requires Lists(files, src, inputs) && inputs != [] && Compact(files, out, targetMb, inputs, sizeOf).result.Done?
    requires k < Compact(files, out, targetMb, inputs, sizeOf).result.summary.outputFiles
    ensures AllIn(files, inputs)
    ensures var job := Compact(files, out, targetMb, inputs, sizeOf);
      var bucket := Dealt(Tables(files, inputs), job.result.summary.outputFiles)[k];
      PartPath(out, k) in job.files && job.files[PartPath(out, k)].rows == Merged(bucket)
  {
    JobKeepsBuckets(files, src, out, targetMb, inputs, sizeOf);
    var left := files - Stale(files, out);
    SameReads(files, left, inputs);
    var tables, b := Tables(left, inputs), Planned(left, inputs, targetMb);
    forall j | 0 <= j < b ensures Dealt(tables, b)[j] != [] { NoBucketIsEmpty(tables, b, j); }
    WrittenPart(out, sizeOf, left, Dealt(tables, b), k);
  }

  /** The rows of the first `b` written files, one file after the other. */
  function RowsInParts<T>(files: map<Path, File<T>>, out: seq<string>, b: nat): seq<T>
    requires forall k | 0 <= k < b :: PartPath(out, k) in files
  {
    if b == 0 then [] else RowsInParts(files, out, b - 1) + files[PartPath(out, b - 1)].rows
  }

  lemma {:induction false} PartsHoldBuckets<T>(
      files: map<Path, File<T>>, out: seq<string>, buckets: seq<seq<seq<T>>>, b: nat)
    requires b <= |buckets|
    requires forall k | 0 <= k < b :: PartPath(out, k) in files && files[PartPath(out, k)].rows == Merged(buckets[k])
    ensures RowsInParts(files, out, b) == RowsOf(buckets[..b])
  {
    if b > 0 {
      PartsHoldBuckets(files, out, buckets, b - 1);
      assert buckets[..b][..b - 1] == buckets[..b - 1];
    }
  }

  /** A finished job keeps every row: the rows in the files it wrote are, with their multiplicities, the
      rows of the inputs, and the row counts it reports without measuring are true. */
  lemma {:induction false} JobKeepsRows<T>(
      files: map<Path, File<T>>, src: seq<string>, out: seq<string>, targetMb: int, inputs: seq<Path>,
      sizeOf: seq<T> -> nat)
    requires Lists(files, src, inputs) && inputs != [] && Compact(files, out, targetMb, inputs, sizeOf).result.Done?
    ensures AllIn(files, inputs)
    ensures var job := Compact(files, out, targetMb, inputs, sizeOf);
      var b, tables := job.result.summary.outputFiles, Tables(files, inputs);
      && 1 <= b <= |inputs|
      && b == BucketCount(Bytes(files, inputs), TargetBytes(targetMb), |inputs|)
      && (forall k | 0 <= k < b :: PartPath(out, k) in job.files)
      && multiset(RowsInParts(job.files, out, b)) == multiset(Merged(tables))
      && job.result.summary.outputRows == |RowsInParts(job.files, out, b)|
      && job.result.summary.inputRows == |Merged(tables)|
  {
    JobKeepsBuckets(files, src, out, targetMb, inputs, sizeOf);
    var job := Compact(files, out, targetMb, inputs, sizeOf);
    var buckets := Dealt(Tables(files, inputs), job.result.summary.outputFiles);
    forall k | 0 <= k < |buckets|
      ensures PartPath(out, k) in job.files && job.files[PartPath(out, k)].rows == Merged(buckets[k])
    {
      PartHoldsItsBucket(files, src, out, targetMb, inputs, sizeOf, k);
    }
    AllPartsHoldBuckets(job.files, out, buckets);
  }

  lemma {:induction false} AllPartsHoldBuckets<T>(files: map<Path, File<T>>, out: seq<string>,
      buckets: seq<seq<seq<T>>>)
    requires forall k | 0 <= k < |buckets| ::
                PartPath(out, k) in files && files[PartPath(out, k)].rows == Merged(buckets[k])
    ensures RowsInParts(files, out, |buckets|) == RowsOf(buckets)
  {
    PartsHoldBuckets(files, out, buckets, |buckets|);
    assert buckets[..|buckets|] == buckets;
  }

  /** With no more buckets than inputs, no file is empty, and each gets the floor or the ceiling of the
      average number of inputs. */
  lemma {:induction false} BucketsAreEven<T>(tables: seq<seq<T>>, b: nat, k: nat)
    requires k < b <= |tables|
    ensures var size := |Dealt(tables, b)[k]|;
      size >= 1 && (size == |tables| / b || size == (|tables| + b - 1) / b)
  {
    NoBucketIsEmpty(tables, b, k);
    BucketSize(tables, b, k);
    CeilingShare(|tables|, b);
  }

  lemma {:induction false} CeilingShare(n: nat, b: nat)
    requires b > 0
    ensures (n + b - 1) / b == n / b + (if n % b > 0 then 1 else 0)
  {
    var q, r := n / b, n % b;
    assert n == b * q + r;
    if r > 0 {
      assert b * (q + 1) == b * q + b;
      Unique(n + b - 1, b, q + 1, r - 1);
    } else {
      Unique(n + b - 1, b, q, b - 1);
    }
  }

  /** The default output directory lies under the source, so a second run, whatever its target size, finds
      the first run's files among its inputs, deletes them, and then fails to read them. */
  lemma {:induction false} DefaultRerunFails<T>(
      files: map<Path, File<T>>, src: seq<string>, targetMb: int, nextMb: int, first: seq<Path>, second: seq<Path>,
      sizeOf: seq<T> -> nat, nextSizeOf: seq<T> -> nat)
    requires Lists(files, src, first) && first != []
    requires Compact(files, src + ["compacted"], targetMb, first, sizeOf).result.Done?
    requires Lists(Compact(files, src + ["compacted"], targetMb, first, sizeOf).files, src, second)
    ensures var out := src + ["compacted"];
      var again := Compact(Compact(files, out, targetMb, first, sizeOf).files, out, nextMb, second, nextSizeOf);
      && again.result == FileNotFound
      && forall p | p in again.files :: !Inside(out, p)
  {
    var out := src + ["compacted"];
    var after := Compact(files, out, targetMb, first, sizeOf).files;
    JobKeepsBuckets(files, src, out, targetMb, first, sizeOf);
    PartHoldsItsBucket(files, src, out, targetMb, first, sizeOf, 0);
    PartIsInside(out, 0);
    assert PartPath(out, 0) in after && Under(src, PartPath(out, 0));
    SucceedsIff(after, src, out, nextMb, second, nextSizeOf);
  }

  // ------------------------------------------------------------------ names, sizes and row order

  /** Which paths the two listings take in: Parquet files under the source, and directly in the output. */
  lemma {:induction false} ListingsMeaning(src: seq<string>, out: seq<string>, p: Path)
    ensures Under(src, p) <==> (exists tail :: p.dir == src + tail) && exists stem :: p.name == stem + ".parquet"
    ensures Inside(out, p) <==> p.dir == out && exists stem :: p.name == stem + ".parquet"
  {
    if Parquet(p) { assert p.name == p.name[..|p.name| - |SUFFIX|] + ".parquet"; }
    if src <= p.dir { assert p.dir == src + p.dir[|src|..]; }
  }

  /** Part `i` stands in the output directory under its number, in decimal and padded to five digits. */
  lemma {:induction false} PartNameMeaning(out: seq<string>, i: nat) returns (digits: string)
    ensures PartPath(out, i) == Path(out, "part-" + digits + ".parquet")
    ensures |digits| >= 5 && (|digits| > 5 ==> digits[0] != '0')
    ensures ValueOf(digits) == i && forall c | c in digits :: '0' <= c <= '9'
  {
    var k := if |Digits(i)| < 5 then 5 - |Digits(i)| else 0;
    digits := Zeros(k) + Digits(i);
    ZerosAddNothing(k, Digits(i));
    DigitsHaveValue(i);
    ZerosAre(k);
    DigitsAre(i);
    assert k == 0 ==> digits == Digits(i);
  }

  lemma {:induction false} ZerosAre(k: nat)
    ensures |Zeros(k)| == k && forall c | c in Zeros(k) :: c == '0'
  {
    if k > 0 { ZerosAre(k - 1); }
  }

  lemma {:induction false} DigitsAre(n: nat)
    ensures |Digits(n)| >= 1 && (forall c | c in Digits(n) :: '0' <= c <= '9')
    ensures n >= 10 ==> |Digits(n)| >= 2
    ensures |Digits(n)| >= 2 ==> Digits(n)[0] != '0'
  {
    if n >= 10 {
      DigitsAre(n / 10);
      if n / 10 < 10 { assert Digits(n / 10) == [(n / 10) as char + '0']; }
    }
  }

  /** The sum of a list of numbers, from the first on. */
  function SumOf(xs: seq<nat>): nat { if xs == [] then 0 else xs[0] + SumOf(xs[1..]) }

  lemma {:induction false} SumOfMore(xs: seq<nat>, x: nat)
    ensures SumOf(xs + [x]) == SumOf(xs) + x
  {
    if xs == [] {
      assert xs + [x] == [x] && [x][1..] == [];
    } else {
      assert (xs + [x])[1..] == xs[1..] + [x];
      SumOfMore(xs[1..], x);
    }
  }

  function Sizes<T>(files: map<Path, File<T>>, paths: seq<Path>): (sizes: seq<nat>)
    requires AllIn(files, paths)
  {
    seq(|paths|, i requires 0 <= i < |paths| => files[paths[i]].size)
  }

  lemma {:induction false} BytesAreSizes<T>(files: map<Path, File<T>>, paths: seq<Path>)
    requires AllIn(files, paths)
    ensures Bytes(files, paths) == SumOf(Sizes(files, paths))
  {
    if paths != [] {
      var rest := paths[..|paths| - 1];
      BytesAreSizes(files, rest);
      assert Sizes(files, paths) == Sizes(files, rest) + [files[paths[|paths| - 1]].size];
      SumOfMore(Sizes(files, rest), files[paths[|paths| - 1]].size);
    }
  }

  function Parts(out: seq<string>, b: nat): (parts: seq<Path>)
    ensures |parts| == b && forall k | 0 <= k < b :: parts[k] == PartPath(out, k)
  {
    seq(b, k requires 0 <= k < b => PartPath(out, k))
  }

  lemma {:induction false} WrittenBytes<T>(
      out: seq<string>, sizeOf: seq<T> -> nat, start: map<Path, File<T>>, buckets: seq<seq<seq<T>>>)
    requires forall k | 0 <= k < |buckets| :: buckets[k] != []
    ensures var o := Write(out, sizeOf, start, buckets);
      AllIn(o.files, Parts(out, |buckets|)) && o.bytes == SumOf(Sizes(o.files, Parts(out, |buckets|)))
  {
    if buckets != [] {
      var n := |buckets| - 1;
      WrittenBytes(out, sizeOf, start, buckets[..n]);
      OneMorePart(out, sizeOf, Write(out, sizeOf, start, buckets[..n]), Merged(buckets[n]), n);
    }
  }

  lemma {:induction false} OneMorePart<T>(
      out: seq<string>, sizeOf: seq<T> -> nat, before: Output<T>, merged: seq<T>, n: nat)
    requires AllIn(before.files, Parts(out, n)) && before.bytes == SumOf(Sizes(before.files, Parts(out, n)))
    ensures var files := before.files[PartPath(out, n) := File(merged, sizeOf(merged))];
      AllIn(files, Parts(out, n + 1)) && before.bytes + sizeOf(merged) == SumOf(Sizes(files, Parts(out, n + 1)))
  {
    var files := before.files[PartPath(out, n) := File(merged, sizeOf(merged))];
    forall k | 0 <= k < n ensures PartPath(out, k) != PartPath(out, n) {
      if PartPath(out, k) == PartPath(out, n) { PartPathsDiffer(out, k, n); }
    }
    assert Sizes(files, Parts(out, n + 1)) == Sizes(before.files, Parts(out, n)) + [sizeOf(merged)];
    SumOfMore(Sizes(before.files, Parts(out, n)), sizeOf(merged));
  }

  /** The summary of a finished job: the files and bytes it read, and the files and bytes it wrote. */
  lemma {:induction false} SummaryMeaning<T>(
      files: map<Path, File<T>>, src: seq<string>, out: seq<string>, targetMb: int, inputs: seq<Path>,
      sizeOf: seq<T> -> nat)
    requires Lists(files, src, inputs) && inputs != [] && Compact(files, out, targetMb, inputs, sizeOf).result.Done?
    ensures AllIn(files, inputs)
    ensures var job := Compact(files, out, targetMb, inputs, sizeOf);
      var s := job.result.summary;
      && s.inputFiles == |inputs| && s.targetMb == targetMb && s.inputBytes == SumOf(Sizes(files, inputs))
      && AllIn(job.files, Parts(out, s.outputFiles))
      && s.outputBytes == SumOf(Sizes(job.files, Parts(out, s.outputFiles)))
  {
    var left := files - Stale(files, out);
    SameReads(files, left, inputs);
    BytesAreSizes(files, inputs);
    var tables, b := Tables(left, inputs), Planned(left, inputs, targetMb);
    WrittenSummary(out, sizeOf, left, tables, b);
  }

  lemma {:induction false} WrittenSummary<T>(
      out: seq<string>, sizeOf: seq<T> -> nat, left: map<Path, File<T>>, tables: seq<seq<T>>, b: nat)
    requires 1 <= b <= |tables|
    ensures var o := Write(out, sizeOf, left, Dealt(tables, b));
      o.written == b && AllIn(o.files, Parts(out, b)) && o.bytes == SumOf(Sizes(o.files, Parts(out, b)))
  {
    forall k | 0 <= k < b ensures Dealt(tables, b)[k] != [] { NoBucketIsEmpty(tables, b, k); }
    WrittenFiles(out, sizeOf, left, Dealt(tables, b), Path([], ""));
    WrittenBytes(out, sizeOf, left, Dealt(tables, b));
  }

  /** Of `b` files the average stays within the target, unless there are as many files as inputs, and one file
      fewer would be over it; one file if there is nothing to hold. */
  predicate FewestWithin(b: int, bytes: int, target: int, inputs: int) {
    && 1 <= b <= inputs
    && (bytes == 0 ==> b == 1)
    && (b > 1 ==> (b - 1) * target < bytes)
    && (b < inputs ==> bytes <= b * target)
  }

  /** A finished job writes the fewest files whose average size stays within the target of so many mebibytes. */
  lemma {:induction false} OutputFilesMeaning<T>(
      files: map<Path, File<T>>, src: seq<string>, out: seq<string>, targetMb: int, inputs: seq<Path>,
      sizeOf: seq<T> -> nat)
    requires Lists(files, src, inputs) && inputs != [] && Compact(files, out, targetMb, inputs, sizeOf).result.Done?
    ensures var s := Compact(files, out, targetMb, inputs, sizeOf).result.summary;
      FewestWithin(s.outputFiles, s.inputBytes, if targetMb < 1 then 1_048_576 else targetMb * 1_048_576, |inputs|)
  {
    JobKeepsBuckets(files, src, out, targetMb, inputs, sizeOf);
    SameReads(files, files - Stale(files, out), inputs);
    TargetMet(Bytes(files, inputs), targetMb, |inputs|);
  }

  lemma {:induction false} TargetMet(bytes: nat, targetMb: int, inputs: nat)
    requires inputs >= 1
    ensures FewestWithin(BucketCount(bytes, TargetBytes(targetMb), inputs), bytes,
                         if targetMb < 1 then 1_048_576 else targetMb * 1_048_576, inputs)
  {
    BucketCountMeaning(bytes, TargetBytes(targetMb), inputs);
    assert TargetBytes(targetMb) == if targetMb < 1 then 1_048_576 else targetMb * 1_048_576;
  }

  function Lengths<T>(tables: seq<seq<T>>): seq<nat> {
    seq(|tables|, i requires 0 <= i < |tables| => |tables[i]|)
  }

  /** Merging keeps each table whole and in its place: behind the rows of the tables before it. */
  lemma {:induction false} MergedAt<T>(bucket: seq<seq<T>>, j: nat)
    requires j < |bucket|
    ensures var from := SumOf(Lengths(bucket[..j]));
      from + |bucket[j]| <= |Merged(bucket)| && Merged(bucket)[from..from + |bucket[j]|] == bucket[j]
    ensures |Merged(bucket)| == SumOf(Lengths(bucket))
  {
    var n := |bucket| - 1;
    var rest := bucket[..n];
    MergedLength(bucket);
    if j < n {
      MergedAt(rest, j);
      assert rest[..j] == bucket[..j];
      assert Merged(bucket)[..|Merged(rest)|] == Merged(rest);
    } else {
      MergedLength(rest);
    }
  }

  lemma {:induction false} PlaceInMerged<T>(bucket: seq<seq<T>>, j: nat) returns (from: nat, behind: nat)
    requires j < |bucket|
    ensures from == SumOf(Lengths(bucket[..j])) && behind == from + |bucket[j]| <= |Merged(bucket)|
    ensures Merged(bucket)[from..behind] == bucket[j]
  {
    MergedAt(bucket, j);
    from := SumOf(Lengths(bucket[..j]));
    behind := from + |bucket[j]|;
  }

  lemma {:induction false} MergedLength<T>(bucket: seq<seq<T>>)
    ensures |Merged(bucket)| == SumOf(Lengths(bucket))
  {
    if bucket != [] {
      var rest := bucket[..|bucket| - 1];
      MergedLength(rest);
      assert Lengths(bucket) == Lengths(rest) + [|bucket[|bucket| - 1]|];
      SumOfMore(Lengths(rest), |bucket[|bucket| - 1]|);
    }
  }

  /** Every input's rows stand together, in their order, among the rows of the bucket its turn gives them, behind
      the rows of the inputs dealt to that bucket before. */
  lemma {:induction false} TableInBucket<T>(tables: seq<seq<T>>, b: nat, i: nat) returns (from: nat, behind: nat)
    requires b > 0 && i < |tables|
    ensures i / b < |Dealt(tables, b)[i % b]| && from == SumOf(Lengths(Dealt(tables, b)[i % b][..i / b]))
    ensures behind == from + |tables[i]| <= |Merged(Dealt(tables, b)[i % b])|
    ensures Merged(Dealt(tables, b)[i % b])[from..behind] == tables[i]
  {
    DealtAt(tables, b, i);
    from, behind := PlaceInMerged(Dealt(tables, b)[i % b], i / b);
  }
}
