/**
 The local spool (`spool.rs`): a directory of report files, listed oldest first
 by name, that evicts its oldest reports to keep a count and a byte budget.
 */
module Spool {
  import opened Text
  import opened Bytes
  import opened Decimal

  /** A directory: file names and contents. */
  type Directory = map<string, seq<Byte>>

  datatype SpoolBudget = SpoolBudget(maxReports: nat, maxTotalBytes: nat)

  // ----- file names

  const PREFIX: string := "report-"
  const SUFFIX: string := ".json"

  predicate EndsWith(s: string, t: string) {
    |t| <= |s| && s[|s| - |t|..] == t
  }

  /** What `list` picks out of the directory. */
  predicate IsReportName(name: string) {
    PREFIX <= name && EndsWith(name, SUFFIX)
  }

  /** `file_stamp`. */
  function FileStamp(nanos: nat, seqNo: nat): string {
    Padded(nanos, 39) + "-" + Padded(seqNo, 12)
  }

  function FinalName(nanos: nat, seqNo: nat): string {
    PREFIX + FileStamp(nanos, seqNo) + SUFFIX
  }

  function TempName(nanos: nat, seqNo: nat): string {
    "." + FinalName(nanos, seqNo) + ".tmp"
  }

  lemma {:induction false} NamesAreReports(nanos: nat, seqNo: nat)
    ensures IsReportName(FinalName(nanos, seqNo))
    ensures !IsReportName(TempName(nanos, seqNo))
  {
    var final, temp := FinalName(nanos, seqNo), TempName(nanos, seqNo);
    assert temp[0] == '.';
  }

  predicate Earlier(n1: nat, s1: nat, n2: nat, s2: nat) {
    n1 < n2 || (n1 == n2 && s1 < s2)
  }

  /** The order of file names is the order of (time, counter), for every `u128` time and every counter below 10^12. */
  lemma {:induction false} NamesSortByTime(n1: nat, s1: nat, n2: nat, s2: nat)
    requires n1 < Pow10(39) && n2 < Pow10(39) && s1 < Pow10(12) && s2 < Pow10(12)
    ensures LexLess(FinalName(n1, s1), FinalName(n2, s2)) <==> Earlier(n1, s1, n2, s2)
  {
    hide Padded, Pow10, LexLess;
    var a, b, x, y := Padded(n1, 39), Padded(n2, 39), Padded(s1, 12), Padded(s2, 12);
    PaddedOrder(n1, n2, 39);
    PaddedOrder(n2, n1, 39);
    PaddedOrder(s1, s2, 12);
    PaddedInjective(n1, n2, 39);
    NameShape(a, x);
    NameShape(b, y);
    LexPrefix(PREFIX, a + ("-" + (x + SUFFIX)), b + ("-" + (y + SUFFIX)));
    LexThen(a, b, "-" + (x + SUFFIX), "-" + (y + SUFFIX));
    LexPrefix("-", x + SUFFIX, y + SUFFIX);
    LexThen(x, y, SUFFIX, SUFFIX);
    LexIrreflexive(SUFFIX);
  }

  lemma {:induction false} NameShape(a: string, x: string)
    ensures PREFIX + (a + "-" + x) + SUFFIX == PREFIX + (a + ("-" + (x + SUFFIX)))
  {
  }

  // ----- listing

  predicate Sorted(names: seq<string>) {
    forall i, j :: 0 <= i < j < |names| ==> LexLess(names[i], names[j])
  }

  /** The report names of a directory in ascending order. */
  ghost predicate IsListing(names: seq<string>, dir: Directory) {
    Sorted(names) && forall n :: n in names <==> n in dir && IsReportName(n)
  }

  /** A name put where it belongs in a sorted list. */
  function Insert(x: string, names: seq<string>): (r: seq<string>)
    ensures forall n :: n in r <==> n == x || n in names
  {
    if names == [] then [x]
    else if LexLess(x, names[0]) then [x] + names
    else
      assert forall n :: n in names <==> n == names[0] || n in names[1..];
      [names[0]] + Insert(x, names[1..])
  }

  lemma {:induction false} InsertSorted(x: string, names: seq<string>)
    requires Sorted(names) && x !in names
    ensures Sorted(Insert(x, names))
  {
    hide LexLess;
    if names != [] {
      if LexLess(x, names[0]) {
        forall j | 0 < j < |names| ensures LexLess(x, names[j]) {
          LexTransitive(x, names[0], names[j]);
        }
      } else {
        LexTotal(x, names[0]);
        InsertSorted(x, names[1..]);
        var rest := Insert(x, names[1..]);
        forall j | 0 <= j < |rest| ensures LexLess(names[0], rest[j]) {
          assert rest[j] in rest;
          assert rest[j] == x || rest[j] in names[1..];
        }
      }
    }
  }

  lemma {:induction false} SortedDistinct(names: seq<string>, i: nat, j: nat)
    requires Sorted(names) && i < j < |names|
    ensures names[i] != names[j]
  {
    LexIrreflexive(names[i]);
  }

  /** A directory has one listing. */
  lemma {:induction false} ListingUnique(a: seq<string>, b: seq<string>)
    requires Sorted(a) && Sorted(b) && forall n :: n in a <==> n in b
    ensures a == b
    decreases |a|
  {
    hide LexLess;
    HeadIn(a);
    HeadIn(b);
    if a != [] {
      HeadsEqual(a, b);
      forall n ensures n in a[1..] <==> n in b[1..] {
        InTail(a, n);
        InTail(b, n);
      }
      ListingUnique(a[1..], b[1..]);
      assert a == [a[0]] + a[1..] && b == [b[0]] + b[1..];
    }
  }

  lemma {:induction false} HeadIn(a: seq<string>)
    ensures a != [] ==> a[0] in a
  {
  }

  lemma {:induction false} InTail(a: seq<string>, n: string)
    requires Sorted(a) && a != []
    ensures n in a[1..] <==> n in a && n != a[0]
  {
    hide LexLess;
    if n in a[1..] {
      var j :| 0 <= j < |a[1..]| && a[1..][j] == n;
      SortedDistinct(a, 0, j + 1);
    }
  }

  lemma {:induction false} HeadsEqual(a: seq<string>, b: seq<string>)
    requires Sorted(a) && Sorted(b) && a != [] && b != []
    requires forall n :: n in a <==> n in b
    ensures a[0] == b[0]
  {
    hide LexLess;
    assert a[0] in b && b[0] in a;
    var i :| 0 <= i < |b| && b[i] == a[0];
    var j :| 0 <= j < |a| && a[j] == b[0];
    if i > 0 && j > 0 {
      LexTransitive(a[0], b[0], a[0]);
      LexIrreflexive(a[0]);
    }
  }

  /** Some report names of a directory, gathered in any order, come out sorted. */
  method SortNames(dir: Directory) returns (names: seq<string>)
    ensures IsListing(names, dir)
  {
    names := [];
    var rest := dir.Keys;
    while rest != {}
      invariant rest <= dir.Keys
      invariant Sorted(names)
      invariant forall n :: n in names <==> n in dir.Keys - rest && IsReportName(n)
      decreases |rest|
    {
      hide LexLess, IsReportName;
      var n: string :| n in rest;
      if IsReportName(n) {
        InsertSorted(n, names);
        names := Insert(n, names);
      }
      rest := rest - {n};
    }
  }

  lemma {:induction false} ListingExists(keys: set<string>) returns (names: seq<string>)
    ensures Sorted(names) && forall n :: n in names <==> n in keys && IsReportName(n)
    decreases |keys|
  {
    hide LexLess, IsReportName;
    if keys == {} {
      names := [];
    } else {
      var n :| n in keys;
      names := ListingExists(keys - {n});
      if IsReportName(n) {
        InsertSorted(n, names);
        names := Insert(n, names);
      }
    }
  }

  /** `list`: the report names, oldest first. */
  ghost function Listing(dir: Directory): (names: seq<string>)
    ensures IsListing(names, dir)
  {
    assert exists names :: IsListing(names, dir) by {
      var names := ListingExists(dir.Keys);
      assert IsListing(names, dir);
    }
    var names :| IsListing(names, dir);
    names
  }

  /** A file is listed exactly when its name starts and ends like a report's. */
  lemma {:induction false} ListedIff(dir: Directory, name: string)
    ensures name in Listing(dir)
            <==> name in dir && "report-" <= name && |name| >= 5 && name[|name| - 5..] == ".json"
  {
    hide Listing;
  }

  // ----- eviction

  /** The bytes of the listed files. */
  ghost function Total(names: seq<string>, dir: Directory): nat
    requires forall n :: n in names ==> n in dir
  {
    if names == [] then 0 else |dir[names[0]]| + Total(names[1..], dir)
  }

  ghost predicate Fits(names: seq<string>, dir: Directory, budget: SpoolBudget)
    requires forall n :: n in names ==> n in dir
  {
    |names| <= budget.maxReports && Total(names, dir) <= budget.maxTotalBytes
  }

  ghost function Firsts(names: seq<string>, k: nat): set<string>
    requires k <= |names|
  {
    set i | 0 <= i < k :: names[i]
  }

  /** How many of the oldest the count budget gives up. */
  ghost function CountExcess(names: seq<string>, budget: SpoolBudget): (k: nat)
    ensures k <= |names|
  {
    if |names| > budget.maxReports then |names| - budget.maxReports else 0
  }

  /** How many of the oldest the byte budget gives up. */
  ghost function ByteExcess(names: seq<string>, dir: Directory, budget: SpoolBudget): (k: nat)
    requires forall n :: n in names ==> n in dir
    ensures k <= |names|
  {
    if names == [] || Total(names, dir) <= budget.maxTotalBytes then 0
    else 1 + ByteExcess(names[1..], dir, budget)
  }

  ghost function AfterCount(dir: Directory, budget: SpoolBudget, stuck: set<string>): Directory {
    var names := Listing(dir);
    dir - (Firsts(names, CountExcess(names, budget)) - stuck)
  }

  ghost function AfterBytes(dir: Directory, budget: SpoolBudget, stuck: set<string>): Directory {
    var names := Listing(dir);
    dir - (Firsts(names, ByteExcess(names, dir, budget)) - stuck)
  }

  /** The directory once both budgets were enforced; files in `stuck` cannot be removed. */
  ghost function Enforced(dir: Directory, budget: SpoolBudget, stuck: set<string>): Directory {
    AfterBytes(AfterCount(dir, budget, stuck), budget, stuck)
  }

  lemma {:induction false} NotYetRemoved(names: seq<string>, k: nat, j: nat)
    requires Sorted(names) && k <= j < |names|
    ensures names[j] !in Firsts(names, k)
  {
    hide LexLess;
    forall i | 0 <= i < k ensures names[i] != names[j] {
      SortedDistinct(names, i, j);
    }
  }

  lemma {:induction false} InRest(names: seq<string>, k: nat, n: string)
    requires Sorted(names) && k <= |names|
    ensures n in names[k..] <==> n in names && n !in Firsts(names, k)
  {
    hide LexLess;
    if n in names {
      var j :| 0 <= j < |names| && names[j] == n;
      if j >= k {
        assert names[k..][j - k] == n;
      }
    }
    if n in names[k..] {
      var j :| 0 <= j < |names[k..]| && names[k..][j] == n;
      NotYetRemoved(names, k, k + j);
    }
  }

  /** What is left of the listing when its oldest `k` files are gone. */
  lemma {:induction false} ListingWithout(dir: Directory, k: nat)
    requires k <= |Listing(dir)|
    ensures Listing(dir - Firsts(Listing(dir), k)) == Listing(dir)[k..]
  {
    var names := Listing(dir);
    var left := dir - Firsts(names, k);
    hide Listing, LexLess, IsReportName;
    forall n ensures n in names[k..] <==> n in left && IsReportName(n) {
      InRest(names, k, n);
    }
    assert IsListing(names[k..], left);
    ListingUnique(Listing(left), names[k..]);
  }

  /** Removing other files does not change what the listed ones hold. */
  lemma {:induction false} TotalKept(names: seq<string>, dir: Directory, kept: Directory)
    requires forall n :: n in names ==> n in dir && n in kept && kept[n] == dir[n]
    ensures Total(names, kept) == Total(names, dir)
  {
    if names != [] {
      assert forall n :: n in names[1..] ==> n in names;
      TotalKept(names[1..], dir, kept);
    }
  }

  lemma {:induction false} ByteExcessKept(names: seq<string>, dir: Directory, kept: Directory, budget: SpoolBudget)
    requires forall n :: n in names ==> n in dir && n in kept && kept[n] == dir[n]
    ensures ByteExcess(names, kept, budget) == ByteExcess(names, dir, budget)
  {
    TotalKept(names, dir, kept);
    if names != [] {
      assert forall n :: n in names[1..] ==> n in names;
      ByteExcessKept(names[1..], dir, kept, budget);
    }
  }

  /** `k` is the least number of oldest files whose removal meets both budgets. */
  ghost predicate LeastCut(names: seq<string>, dir: Directory, budget: SpoolBudget, k: nat)
    requires forall n :: n in names ==> n in dir
  {
    && k <= |names|
    && Fits(names[k..], dir, budget)
    && forall j :: 0 <= j < k ==> !Fits(names[j..], dir, budget)
  }

  lemma {:induction false} ByteExcessLeast(names: seq<string>, dir: Directory, budget: SpoolBudget, j: nat)
    requires forall n :: n in names ==> n in dir
    ensures var k := ByteExcess(names, dir, budget);
            && Total(names[k..], dir) <= budget.maxTotalBytes
            && (j < k ==> Total(names[j..], dir) > budget.maxTotalBytes)
  {
    var k := ByteExcess(names, dir, budget);
    if k > 0 {
      ByteExcessLeast(names[1..], dir, budget, if j == 0 then 0 else j - 1);
      assert names[1..][k - 1..] == names[k..];
      assert j > 0 && j < k ==> names[1..][j - 1..] == names[j..];
      assert names[0..] == names;
    } else {
      assert names[0..] == names;
    }
  }

  /** The count excess and then the byte excess of what it leaves make the least cut. */
  lemma {:induction false} ExcessesAreLeastCut(names: seq<string>, dir: Directory, budget: SpoolBudget)
    requires forall n :: n in names ==> n in dir
    ensures var c := CountExcess(names, budget);
            LeastCut(names, dir, budget, c + ByteExcess(names[c..], dir, budget))
  {
    hide ByteExcess, Total;
    var c := CountExcess(names, budget);
    var b := ByteExcess(names[c..], dir, budget);
    ByteExcessLeast(names[c..], dir, budget, b);
    assert names[c..][b..] == names[c + b..];
    forall j | 0 <= j < c + b ensures !Fits(names[j..], dir, budget) {
      if j >= c {
        ByteExcessLeast(names[c..], dir, budget, j - c);
        assert names[c..][j - c..] == names[j..];
      }
    }
  }

  /**
   With every removal succeeding, what is left is exactly the longest suffix, in list order,
   that meets the count and the byte budget; every other file of the directory is untouched.
   */
  lemma {:induction false} EnforcedIsLongestSuffix(dir: Directory, budget: SpoolBudget) returns (k: nat)
    ensures LeastCut(Listing(dir), dir, budget, k)
    ensures Listing(Enforced(dir, budget, {})) == Listing(dir)[k..]
    ensures Enforced(dir, budget, {}) == dir - Firsts(Listing(dir), k)
  {
    hide Listing, LexLess, IsReportName, LeastCut, ByteExcess;
    var names := Listing(dir);
    var c := CountExcess(names, budget);
    var left := dir - Firsts(names, c);
    ListingWithout(dir, c);
    var b := ByteExcess(names[c..], left, budget);
    KeptFiles(names, dir, c);
    ByteExcessKept(names[c..], dir, left, budget);
    ExcessesAreLeastCut(names, dir, budget);
    k := c + b;
    assert AfterCount(dir, budget, {}) == left;
    FirstsTwice(names, c, b);
    assert Enforced(dir, budget, {}) == left - Firsts(names[c..], b);
    assert Enforced(dir, budget, {}) == dir - Firsts(names, k);
    ListingWithout(dir, k);
  }

  lemma {:induction false} KeptFiles(names: seq<string>, dir: Directory, c: nat)
    requires names == Listing(dir) && c <= |names|
    ensures var left := dir - Firsts(names, c);
            forall n :: n in names[c..] ==> n in left && left[n] == dir[n]
  {
    ListingWithout(dir, c);
    hide Listing, LexLess, IsReportName;
  }

  lemma {:induction false} FirstsTwice(names: seq<string>, c: nat, b: nat)
    requires c + b <= |names|
    ensures Firsts(names, c) + Firsts(names[c..], b) == Firsts(names, c + b)
  {
    forall n | n in Firsts(names, c + b) ensures n in Firsts(names, c) + Firsts(names[c..], b) {
      var i :| 0 <= i < c + b && names[i] == n;
      assert i >= c ==> names[c..][i - c] == n;
    }
    forall n | n in Firsts(names[c..], b) ensures n in Firsts(names, c + b) {
      var i :| 0 <= i < b && names[c..][i] == n;
      assert names[c + i] == n;
    }
  }

  // ----- the spool

  /** How far the atomic write gets. */
  datatype Write = CreateFails | WriteFails(partial: seq<Byte>) | RenameFails | Succeeds

  datatype Result = Ok(name: string) | IoError

  class Spool {
    const budget: SpoolBudget
    var dir: Directory
    /** The per-process counter of `file_stamp`. */
    var counter: nat

    constructor (dir: Directory, budget: SpoolBudget)
      ensures this.dir == dir && this.budget == budget && counter == 0
    {
      this.dir, this.budget, this.counter := dir, budget, 0;
    }

    method List() returns (names: seq<string>)
      ensures names == Listing(dir)
    {
      names := SortNames(dir);
      ListingUnique(names, Listing(dir));
    }

    method TotalBytes() returns (total: nat)
      ensures total == Total(Listing(dir), dir)
    {
      var names := List();
      total := 0;
      var i := 0;
      while i < |names|
        invariant 0 <= i <= |names|
        invariant forall n :: n in names[i..] ==> n in dir
        invariant total + Total(names[i..], dir) == Total(names, dir)
      {
        hide Listing;
        assert names[i..][1..] == names[i + 1..] && names[i] in names[i..];
        assert forall n :: n in names[i + 1..] ==> n in names[i..];
        total := total + |dir[names[i]]|;
        i := i + 1;
      }
    }

    method Load(name: string) returns (r: Option<seq<Byte>>)
      ensures r == if name in dir then Some(dir[name]) else None
    {
      r := if name in dir then Some(dir[name]) else None;
    }

    method Remove(name: string, stuck: set<string>) returns (ok: bool)
      modifies this`dir
      ensures ok == (name in old(dir) && name !in stuck)
      ensures dir == old(dir) - ({name} - stuck)
    {
      ok := name in dir && name !in stuck;
      if ok {
        dir := dir - {name};
      }
    }

    /** The two eviction loops. The byte loop counts a file as gone even when its removal failed. */
    method EnforceBudget(stuck: set<string>)
      modifies this`dir
      ensures dir == Enforced(old(dir), budget, stuck)
    {
      hide Listing, Total;
      ghost var before := dir;
      var files := List();
      ghost var all := files;
      ghost var k: nat := 0;
      while |files| > budget.maxReports
        invariant k <= |all| && files == all[k..]
        invariant |all| > budget.maxReports ==> |files| >= budget.maxReports
        invariant k == 0 || |all| > budget.maxReports
        invariant dir == before - (Firsts(all, k) - stuck)
        decreases |files|
      {
        var oldest := files[0];
        FirstsNext(all, k);
        files := files[1..];
        var _ := Remove(oldest, stuck);
        k := k + 1;
      }
      assert k == CountExcess(all, budget);
      EnforceBytes(stuck);
    }

    method EnforceBytes(stuck: set<string>)
      modifies this`dir
      ensures dir == AfterBytes(old(dir), budget, stuck)
    {
      hide Listing, IsReportName, LexLess, Total, ByteExcess;
      ghost var before := dir;
      var total := TotalBytes();
      var files := List();
      ghost var all := files;
      ghost var k: nat := 0;
      while total > budget.maxTotalBytes && files != []
        invariant k <= |all| && files == all[k..]
        invariant forall n :: n in files ==> n in before
        invariant total == Total(files, before)
        invariant k + ByteExcess(files, before, budget) == ByteExcess(all, before, budget)
        invariant dir == before - (Firsts(all, k) - stuck)
        decreases |files|
      {
        var oldest := files[0];
        NotYetRemoved(all, k, k);
        ByteStep(files, before, budget);
        var size := |dir[oldest]|;
        FirstsNext(all, k);
        files := files[1..];
        var _ := Remove(oldest, stuck);
        total := if total >= size then total - size else 0;
        k := k + 1;
      }
      ByteDone(files, before, budget);
    }

    /**
     Writes the report under a temporary name, renames it, and evicts. Until the rename
     the listed reports are untouched; after it the budgets are enforced on old and new together.
     */
    method Enqueue(json: seq<Byte>, nanos: nat, write: Write, stuck: set<string>) returns (r: Result)
      modifies this
      ensures counter == old(counter) + 1
      ensures r.Ok? <==> write.Succeeds?
      ensures write.Succeeds? ==>
                && r.name == "report-" + (Padded(nanos, 39) + "-" + Padded(old(counter), 12)) + ".json"
                && dir == Enforced((old(dir) - {"." + r.name + ".tmp"})[r.name := json], budget, stuck)
      ensures !write.Succeeds? ==>
                && Listing(dir) == Listing(old(dir))
                && forall n :: n in Listing(dir) ==> dir[n] == old(dir)[n]
    {
      hide Enforced, Listing;
      var final, temp := FinalName(nanos, counter), TempName(nanos, counter);
      NamesAreReports(nanos, counter);
      counter := counter + 1;
      ghost var before := dir;
      match write {
        case CreateFails =>
          return IoError;
        case WriteFails(partial) =>
          dir := dir[temp := partial];
          SameListing(before, dir, temp);
          return IoError;
        case RenameFails =>
          dir := dir[temp := json];
          SameListing(before, dir, temp);
          return IoError;
        case Succeeds =>
          dir := dir[temp := json];
          dir := (dir - {temp})[final := json];
          assert dir == (before - {temp})[final := json];
          EnforceBudget(stuck);
          return Ok(final);
      }
    }
  }

  lemma {:induction false} ByteStep(files: seq<string>, dir: Directory, budget: SpoolBudget)
    requires files != [] && forall n :: n in files ==> n in dir
    requires Total(files, dir) > budget.maxTotalBytes
    ensures files[0] in dir && forall n :: n in files[1..] ==> n in dir
    ensures Total(files, dir) == |dir[files[0]]| + Total(files[1..], dir)
    ensures ByteExcess(files, dir, budget) == 1 + ByteExcess(files[1..], dir, budget)
  {
    assert files[0] in files;
    assert forall n :: n in files[1..] ==> n in files;
  }

  lemma {:induction false} ByteDone(files: seq<string>, dir: Directory, budget: SpoolBudget)
    requires forall n :: n in files ==> n in dir
    requires files == [] || Total(files, dir) <= budget.maxTotalBytes
    ensures ByteExcess(files, dir, budget) == 0
  {
  }

  lemma {:induction false} FirstsNext(names: seq<string>, k: nat)
    requires k < |names|
    ensures Firsts(names, k + 1) == Firsts(names, k) + {names[k]}
  {
  }

  /** A file that is not a report changes no listing. */
  lemma {:induction false} SameListing(before: Directory, after: Directory, temp: string)
    requires !IsReportName(temp)
    requires forall n :: n != temp ==> (n in before <==> n in after) && (n in before ==> before[n] == after[n])
    ensures Listing(after) == Listing(before)
    ensures forall n :: n in Listing(after) ==> n in before && after[n] == before[n]
  {
    hide IsReportName, LexLess;
    ListingUnique(Listing(after), Listing(before));
  }

  // ----- what one enqueue leaves

  /** A name later than every listed one goes to the end of the list. */
  lemma {:induction false} NewestLast(dir: Directory, name: string, json: seq<Byte>)
    requires IsReportName(name)
    requires forall n :: n in dir && IsReportName(n) ==> LexLess(n, name)
    ensures Listing(dir[name := json]) == Listing(dir) + [name]
  {
    hide IsReportName, LexLess;
    var names := Listing(dir);
    assert Sorted(names + [name]);
    assert forall n :: n in names + [name] <==> n in dir[name := json] && IsReportName(n);
    ListingUnique(Listing(dir[name := json]), names + [name]);
  }

  /** Reports enqueued before: their names carry an earlier stamp. */
  ghost predicate AllEarlier(dir: Directory, nanos: nat, seqNo: nat) {
    forall n :: n in dir && IsReportName(n) ==>
      exists n1: nat, s1: nat :: n == FinalName(n1, s1) && n1 < Pow10(39) && s1 < Pow10(12) && Earlier(n1, s1, nanos, seqNo)
  }

  /** The new name is later than every listed one, and therefore new. */
  lemma {:induction false} StampLater(dir: Directory, nanos: nat, seqNo: nat)
    requires nanos < Pow10(39) && seqNo < Pow10(12)
    requires AllEarlier(dir, nanos, seqNo)
    ensures var name := FinalName(nanos, seqNo);
            && IsReportName(name) && name !in dir
            && forall n :: n in dir && IsReportName(n) ==> LexLess(n, name)
  {
    hide LexLess, IsReportName, FinalName, Pow10;
    var name := FinalName(nanos, seqNo);
    NamesAreReports(nanos, seqNo);
    forall n | n in dir && IsReportName(n) ensures LexLess(n, name) {
      var n1: nat, s1: nat :| n == FinalName(n1, s1) && n1 < Pow10(39) && s1 < Pow10(12) && Earlier(n1, s1, nanos, seqNo);
      NamesSortByTime(n1, s1, nanos, seqNo);
    }
    LexIrreflexive(name);
  }

  /**
   With a clock and counter past every earlier stamp and removals succeeding, the spool after an
   enqueue is the longest suffix of (old reports in order, then the new one) that meets both budgets.
   */
  lemma {:induction false} EnqueueKeepsNewest(dir: Directory, budget: SpoolBudget, nanos: nat, seqNo: nat, json: seq<Byte>)
    returns (k: nat)
    requires nanos < Pow10(39) && seqNo < Pow10(12)
    requires AllEarlier(dir, nanos, seqNo)
    ensures var name := FinalName(nanos, seqNo);
            var full := dir[name := json];
            && Listing(full) == Listing(dir) + [name]
            && LeastCut(Listing(dir) + [name], full, budget, k)
            && Listing(Enforced(full, budget, {})) == (Listing(dir) + [name])[k..]
            && forall n :: n in Enforced(full, budget, {}) ==> Enforced(full, budget, {})[n] == full[n]
  {
    hide Listing, LexLess, IsReportName, LeastCut, Enforced, Padded, FinalName, Pow10;
    var name := FinalName(nanos, seqNo);
    StampLater(dir, nanos, seqNo);
    NewestLast(dir, name, json);
    k := EnforcedIsLongestSuffix(dir[name := json], budget);
  }

  /**
   Whether the report just enqueued is still spooled: exactly when the count budget admits one report
   and the byte budget admits this one. Otherwise nothing is left, itself included.
   */
  lemma {:induction false} NewestSurvivesIff(dir: Directory, budget: SpoolBudget, nanos: nat, seqNo: nat, json: seq<Byte>)
    requires nanos < Pow10(39) && seqNo < Pow10(12)
    requires AllEarlier(dir, nanos, seqNo)
    ensures var name := FinalName(nanos, seqNo);
            var left := Listing(Enforced(dir[name := json], budget, {}));
            && (name in left <==> budget.maxReports >= 1 && |json| <= budget.maxTotalBytes)
            && (name !in left ==> left == [])
  {
    hide Listing, LexLess, IsReportName, Enforced, Padded, FinalName, Pow10, AllEarlier, LeastCut;
    var name := FinalName(nanos, seqNo);
    var full, names := dir[name := json], Listing(dir) + [name];
    var k := EnqueueKeepsNewest(dir, budget, nanos, seqNo, json);
    LastKeptIff(names, full, budget, k);
    if k < |names| {
      assert names[k..][|names| - 1 - k] == name;
    }
  }

  /** The longest fitting suffix holds the last file exactly when that file fits on its own. */
  lemma {:induction false} LastKeptIff(names: seq<string>, dir: Directory, budget: SpoolBudget, k: nat)
    requires names != [] && forall n :: n in names ==> n in dir
    requires LeastCut(names, dir, budget, k)
    ensures k < |names| <==> budget.maxReports >= 1 && |dir[names[|names| - 1]]| <= budget.maxTotalBytes
    ensures k <= |names|
  {
    var last := |names| - 1;
    assert names[last..] == [names[last]];
    assert Total([names[last]], dir) == |dir[names[last]]| + Total([names[last]][1..], dir);
    if k < |names| {
      assert names[k..][last - k] == names[last];
      TotalAtLeast(names[k..], dir, last - k);
    } else {
      assert !Fits(names[last..], dir, budget);
    }
  }

  /** A report larger than the byte budget evicts the whole spool, itself included. */
  lemma {:induction false} OversizeEmptiesSpool(dir: Directory, budget: SpoolBudget, nanos: nat, seqNo: nat, json: seq<Byte>)
    requires nanos < Pow10(39) && seqNo < Pow10(12)
    requires AllEarlier(dir, nanos, seqNo) && |json| > budget.maxTotalBytes
    ensures Listing(Enforced(dir[FinalName(nanos, seqNo) := json], budget, {})) == []
  {
    hide Listing, Enforced, FinalName, Pow10, AllEarlier;
    NewestSurvivesIff(dir, budget, nanos, seqNo, json);
  }

  lemma {:induction false} TotalAtLeast(names: seq<string>, dir: Directory, i: nat)
    requires i < |names| && forall n :: n in names ==> n in dir
    ensures Total(names, dir) >= |dir[names[i]]|
  {
    if i > 0 {
      assert forall n :: n in names[1..] ==> n in names;
      TotalAtLeast(names[1..], dir, i - 1);
    }
  }

  // ----- whole runs

  /** One enqueue: the clock reading and the report's bytes. */
  datatype Arrival = Arrival(nanos: nat, json: seq<Byte>)

  /** The spool after the arrivals, the counter starting at `seqNo` and every removal succeeding. */
  ghost function Run(dir: Directory, budget: SpoolBudget, seqNo: nat, arrivals: seq<Arrival>): Directory
    decreases |arrivals|
  {
    if arrivals == [] then dir
    else
      var full := dir[FinalName(arrivals[0].nanos, seqNo) := arrivals[0].json];
      Run(Enforced(full, budget, {}), budget, seqNo + 1, arrivals[1..])
  }

  /** The names in the order the reports arrived. */
  function Arrived(seqNo: nat, arrivals: seq<Arrival>): seq<string>
    decreases |arrivals|
  {
    if arrivals == [] then [] else [FinalName(arrivals[0].nanos, seqNo)] + Arrived(seqNo + 1, arrivals[1..])
  }

  ghost predicate ClockNeverBack(nanos: nat, arrivals: seq<Arrival>)
    decreases |arrivals|
  {
    arrivals != [] ==>
      nanos <= arrivals[0].nanos < Pow10(39) && ClockNeverBack(arrivals[0].nanos, arrivals[1..])
  }

  /** Every arrival written and nothing evicted. */
  ghost function Written(dir: Directory, seqNo: nat, arrivals: seq<Arrival>): Directory
    decreases |arrivals|
  {
    if arrivals == [] then dir
    else Written(dir[FinalName(arrivals[0].nanos, seqNo) := arrivals[0].json], seqNo + 1, arrivals[1..])
  }

  /** A report just written is earlier than the next stamp. */
  lemma {:induction false} WrittenEarlier(dir: Directory, nanos: nat, seqNo: nat, json: seq<Byte>)
    requires nanos < Pow10(39) && seqNo < Pow10(12)
    requires AllEarlier(dir, nanos, seqNo)
    ensures AllEarlier(dir[FinalName(nanos, seqNo) := json], nanos, seqNo + 1)
  {
    hide LexLess, IsReportName, FinalName, Pow10;
    var name := FinalName(nanos, seqNo);
    forall n | n in dir[name := json] && IsReportName(n)
      ensures exists n1: nat, s1: nat ::
                n == FinalName(n1, s1) && n1 < Pow10(39) && s1 < Pow10(12) && Earlier(n1, s1, nanos, seqNo + 1)
    {
      if n == name {
        assert Earlier(nanos, seqNo, nanos, seqNo + 1);
      } else {
        var n1: nat, s1: nat :|
          n == FinalName(n1, s1) && n1 < Pow10(39) && s1 < Pow10(12) && Earlier(n1, s1, nanos, seqNo);
        assert Earlier(n1, s1, nanos, seqNo + 1);
      }
    }
  }

  lemma {:induction false} TotalNext(names: seq<string>, dir: Directory, name: string, json: seq<Byte>)
    requires name !in dir && forall n :: n in names ==> n in dir
    ensures forall n :: n in names + [name] ==> n in dir[name := json]
    ensures Total(names + [name], dir[name := json]) == Total(names, dir) + |json|
  {
    var full := dir[name := json];
    if names == [] {
      assert names + [name] == [name];
    } else {
      assert (names + [name])[1..] == names[1..] + [name];
      assert forall n :: n in names[1..] ==> n in names;
      TotalNext(names[1..], dir, name, json);
    }
  }

  /** A stretch that fits with the new report fits without it. */
  lemma {:induction false} FitsWithout(names: seq<string>, dir: Directory, budget: SpoolBudget, name: string, json: seq<Byte>, j: nat)
    requires name !in dir && j <= |names| && forall n :: n in names ==> n in dir
    ensures forall n :: n in names + [name] ==> n in dir[name := json]
    ensures Fits((names + [name])[j..], dir[name := json], budget) ==> Fits(names[j..], dir, budget)
  {
    assert (names + [name])[j..] == names[j..] + [name];
    assert forall n :: n in names[j..] ==> n in names;
    TotalNext(names[j..], dir, name, json);
  }

  /** What was evicted before the new report came is evicted with it as well. */
  lemma {:induction false} CutsAdd(names: seq<string>, dir: Directory, budget: SpoolBudget, name: string, json: seq<Byte>,
                                   k: nat, left: Directory, m: nat)
    requires name !in dir && forall n :: n in names ==> n in dir
    requires LeastCut(names, dir, budget, k)
    requires forall n :: n in (names + [name])[k..] ==> n in left && n in dir[name := json] && left[n] == dir[name := json][n]
    requires LeastCut((names + [name])[k..], left, budget, m)
    ensures forall n :: n in names + [name] ==> n in dir[name := json]
    ensures LeastCut(names + [name], dir[name := json], budget, k + m)
  {
    var all, full := names + [name], dir[name := json];
    FitsWithout(names, dir, budget, name, json, 0);
    forall j: nat | k <= j <= |all| ensures Fits(all[j..], full, budget) <==> Fits(all[k..][j - k..], left, budget) {
      assert all[k..][j - k..] == all[j..];
      assert forall n :: n in all[j..] ==> n in all[k..];
      TotalKept(all[j..], full, left);
    }
    hide Fits, Total;
    forall j | 0 <= j < k + m ensures !Fits(all[j..], full, budget) {
      if j < k {
        FitsWithout(names, dir, budget, name, json, j);
      } else {
        assert !Fits(all[k..][j - k..], left, budget);
      }
    }
  }

  lemma {:induction false} LeastCutUnique(names: seq<string>, dir: Directory, budget: SpoolBudget, k: nat, m: nat)
    requires forall n :: n in names ==> n in dir
    requires LeastCut(names, dir, budget, k) && LeastCut(names, dir, budget, m)
    ensures k == m
  {
    hide Fits;
  }

  /** Enforcing before a later report comes makes no difference to what is left afterwards. */
  lemma {:induction false} EnforceOnce(dir: Directory, budget: SpoolBudget, name: string, json: seq<Byte>)
    requires IsReportName(name) && name !in dir
    requires forall n :: n in dir && IsReportName(n) ==> LexLess(n, name)
    ensures Enforced(Enforced(dir, budget, {})[name := json], budget, {}) == Enforced(dir[name := json], budget, {})
  {
    hide Listing, LexLess, IsReportName, LeastCut, Enforced, Firsts;
    var names, full := Listing(dir), dir[name := json];
    var all := names + [name];
    NewestLast(dir, name, json);
    var k := EnforcedIsLongestSuffix(dir, budget);
    var cut := EnforcedIsLongestSuffix(full, budget);
    CutWithin(names, dir, budget, k);
    FirstsNamed(names, name, k);
    var left := full - Firsts(all, k);
    assert Enforced(dir, budget, {})[name := json] == left;
    ListingWithout(full, k);
    KeptFiles(all, full, k);
    var m := EnforcedIsLongestSuffix(left, budget);
    CutWithin(all[k..], left, budget, m);
    CutsAdd(names, dir, budget, name, json, k, left, m);
    LeastCutUnique(all, full, budget, cut, k + m);
    FirstsTwice(all, k, m);
    assert Enforced(left, budget, {}) == full - Firsts(all, k + m);
  }

  lemma {:induction false} FirstsNamed(names: seq<string>, name: string, k: nat)
    requires k <= |names| && name !in names
    ensures Firsts(names + [name], k) == Firsts(names, k) && name !in Firsts(names, k)
  {
    assert forall i :: 0 <= i < k ==> (names + [name])[i] == names[i];
    forall n | n in Firsts(names, k) ensures n in Firsts(names + [name], k) {
      var i :| 0 <= i < k && names[i] == n;
      assert (names + [name])[i] == n;
    }
  }

  lemma {:induction false} WrittenListing(dir: Directory, nanos: nat, seqNo: nat, arrivals: seq<Arrival>)
    requires ClockNeverBack(nanos, arrivals) && seqNo + |arrivals| <= Pow10(12)
    requires AllEarlier(dir, nanos, seqNo)
    ensures Listing(Written(dir, seqNo, arrivals)) == Listing(dir) + Arrived(seqNo, arrivals)
    decreases |arrivals|
  {
    hide Listing, LexLess, IsReportName, FinalName, Pow10, AllEarlier;
    if arrivals == [] {
      assert Listing(dir) + [] == Listing(dir);
    } else {
      var a := arrivals[0];
      var name := FinalName(a.nanos, seqNo);
      LaterStillEarlier(dir, nanos, a.nanos, seqNo);
      StampLater(dir, a.nanos, seqNo);
      NewestLast(dir, name, a.json);
      WrittenEarlier(dir, a.nanos, seqNo, a.json);
      WrittenListing(dir[name := a.json], a.nanos, seqNo + 1, arrivals[1..]);
      assert Listing(dir) + [name] + Arrived(seqNo + 1, arrivals[1..])
          == Listing(dir) + ([name] + Arrived(seqNo + 1, arrivals[1..]));
    }
  }

  /** Evicting after every arrival leaves what evicting once at the end would leave. */
  lemma {:induction false} RunIsEnforcedAtEnd(past: Directory, budget: SpoolBudget, nanos: nat, seqNo: nat, arrivals: seq<Arrival>)
    requires ClockNeverBack(nanos, arrivals) && seqNo + |arrivals| <= Pow10(12)
    requires AllEarlier(past, nanos, seqNo)
    ensures Run(Enforced(past, budget, {}), budget, seqNo, arrivals) == Enforced(Written(past, seqNo, arrivals), budget, {})
    decreases |arrivals|
  {
    hide Listing, LexLess, IsReportName, FinalName, Enforced, Pow10, AllEarlier;
    if arrivals != [] {
      var a := arrivals[0];
      LaterStillEarlier(past, nanos, a.nanos, seqNo);
      StampLater(past, a.nanos, seqNo);
      EnforceOnce(past, budget, FinalName(a.nanos, seqNo), a.json);
      WrittenEarlier(past, a.nanos, seqNo, a.json);
      RunIsEnforcedAtEnd(past[FinalName(a.nanos, seqNo) := a.json], budget, a.nanos, seqNo + 1, arrivals[1..]);
    }
  }

  /**
   Over whole runs: after at least one arrival the spool is exactly the longest suffix, meeting both
   budgets, of everything it held and received in order; a spool that already was the longest suffix
   of a longer past goes on being so.
   */
  lemma {:induction false} RunKeepsLatest(past: Directory, dir: Directory, budget: SpoolBudget, nanos: nat, seqNo: nat,
                                          arrivals: seq<Arrival>) returns (k: nat)
    requires ClockNeverBack(nanos, arrivals) && seqNo + |arrivals| <= Pow10(12)
    requires AllEarlier(past, nanos, seqNo)
    requires dir == Enforced(past, budget, {}) || (dir == past && arrivals != [])
    ensures var all, history := Written(past, seqNo, arrivals), Listing(past) + Arrived(seqNo, arrivals);
            && Listing(all) == history && LeastCut(history, all, budget, k)
            && Listing(Run(dir, budget, seqNo, arrivals)) == history[k..]
            && Run(dir, budget, seqNo, arrivals) == all - Firsts(history, k)
  {
    hide Listing, LexLess, IsReportName, FinalName, Enforced, Pow10, AllEarlier, LeastCut;
    WrittenListing(past, nanos, seqNo, arrivals);
    RunIsEnforcedAtEnd(past, budget, nanos, seqNo, arrivals);
    if dir == past && arrivals != [] {
      var a := arrivals[0];
      LaterStillEarlier(past, nanos, a.nanos, seqNo);
      WrittenEarlier(past, a.nanos, seqNo, a.json);
      RunIsEnforcedAtEnd(past[FinalName(a.nanos, seqNo) := a.json], budget, a.nanos, seqNo + 1, arrivals[1..]);
    }
    k := EnforcedIsLongestSuffix(Written(past, seqNo, arrivals), budget);
  }

  lemma {:induction false} CutWithin(names: seq<string>, dir: Directory, budget: SpoolBudget, k: nat)
    requires forall n :: n in names ==> n in dir
    requires LeastCut(names, dir, budget, k)
    ensures k <= |names|
  {
  }

  lemma {:induction false} LaterStillEarlier(dir: Directory, nanos: nat, next: nat, seqNo: nat)
    requires AllEarlier(dir, nanos, seqNo) && nanos <= next
    ensures AllEarlier(dir, next, seqNo)
  {
    hide IsReportName, FinalName, Pow10;
    forall n | n in dir && IsReportName(n)
      ensures exists n1: nat, s1: nat ::
                n == FinalName(n1, s1) && n1 < Pow10(39) && s1 < Pow10(12) && Earlier(n1, s1, next, seqNo)
    {
      var n1: nat, s1: nat :|
        n == FinalName(n1, s1) && n1 < Pow10(39) && s1 < Pow10(12) && Earlier(n1, s1, nanos, seqNo);
      assert Earlier(n1, s1, next, seqNo);
    }
  }
}
