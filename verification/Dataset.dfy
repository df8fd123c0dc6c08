/** Datasets and their iterators. */
module Datasets {
  import opened Arith
  import opened Decimal
  import opened Prelude

  /* ---- _fill_repeat ---- */

  function Repeated(ext: string, k: nat): (s: string) {
    if k == 0 then "" else Repeated(ext, k - 1) + ext
  }

  /** limit - 1 in unsigned 32-bit arithmetic: a limit of 0 wraps around. */
  function Target(limit: uint32): uint32 {
    (limit + U32 - 1) % U32
  }

  /** How many copies of step characters after length characters the loop
      makes: one, and then more until target is reached. */
  function Copies(length: nat, step: nat, target: nat): (k: nat)
    requires step > 0
    ensures k >= 1
    decreases if target > length then target - length else 0
  {
    if length + step >= target then 1 else 1 + Copies(length + step, step, target)
  }

  /** Copies is the least k >= 1 with length + k * step >= target. */
  lemma {:induction false} CopiesLeast(length: nat, step: nat, target: nat)
    requires step > 0
    ensures var k := Copies(length, step, target);
            length + k * step >= target && (k > 1 ==> length + (k - 1) * step < target)
    decreases if target > length then target - length else 0
  {
    if length + step < target {
      CopiesLeast(length + step, step, target);
      var k := Copies(length + step, step, target);
      assert (k + 1) * step == k * step + step;
      assert (k - 1) * step + step == k * step;
    }
  }

  function Extension(repeat: string, idx: nat): (ext: string)
    ensures ext != []
  {
    repeat + Print(idx)
  }

  /** What _fill_repeat returns. */
  function Filled(base: string, limit: uint32, repeat: string, idx: nat): string {
    var ext := Extension(repeat, idx);
    base + Repeated(ext, Copies(|base|, |ext|, Target(limit)))
  }

  lemma OneMore(base: string, ext: string, k: nat)
    ensures (base + Repeated(ext, k)) + ext == base + Repeated(ext, k + 1)
  {
    assert Repeated(ext, k + 1) == Repeated(ext, k) + ext;
  }

  method FillRepeat(base: string, limit: uint32, repeat: string, idx: nat) returns (result: string)
    ensures result == Filled(base, limit, repeat, idx)
  {
    var ext := repeat + Print(idx);
    result := base + ext;
    ghost var k := 1;
    assert Repeated(ext, 1) == ext;
    hide Repeated, Print, Target;
    while |result| < Target(limit)
      invariant k >= 1 && |result| >= |ext| && result == base + Repeated(ext, k)
      invariant Copies(|base|, |ext|, Target(limit)) == k - 1 + Copies(|result| - |ext|, |ext|, Target(limit))
      decreases Target(limit) - |result|
    {
      OneMore(base, ext, k);
      result := result + ext;
      k := k + 1;
    }
  }

  lemma {:induction false} RepeatedLength(ext: string, k: nat)
    ensures |Repeated(ext, k)| == k * |ext|
  {
    if k > 0 {
      RepeatedLength(ext, k - 1);
      assert k * |ext| == (k - 1) * |ext| + |ext|;
    }
  }

  /** The number of copies is the only one that reaches the target just so. */
  lemma CopiesUnique(length: nat, step: nat, target: nat, k: nat)
    requires step > 0 && k >= 1
    requires length + k * step >= target && (k > 1 ==> length + (k - 1) * step < target)
    ensures Copies(length, step, target) == k
  {
    CopiesLeast(length, step, target);
    var c := Copies(length, step, target);
    if c < k {
      MulLe(c, k - 1, step);
    } else if k < c {
      MulLe(k, c - 1, step);
    }
  }

  /** The length of a key whose extension has step characters. */
  function FilledLength(length: nat, limit: uint32, step: nat): nat
    requires step > 0
  {
    length + Copies(length, step, Target(limit)) * step
  }

  lemma FilledLengthIs(base: string, limit: uint32, repeat: string, idx: nat)
    ensures |Filled(base, limit, repeat, idx)| == FilledLength(|base|, limit, |Extension(repeat, idx)|)
  {
    var ext := Extension(repeat, idx);
    RepeatedLength(ext, Copies(|base|, |ext|, Target(limit)));
  }

  lemma FilledLengthBound(length: nat, limit: uint32, step: nat)
    requires limit >= 1 && step > 0
    ensures FilledLength(length, limit, step) >= limit - 1
    ensures FilledLength(length, limit, step) == length + step || FilledLength(length, limit, step) < limit - 1 + step
  {
    CopiesLeast(length, step, Target(limit));
    hide Copies;
    var k := Copies(length, step, Target(limit));
    assert k * step == (k - 1) * step + step;
  }

  /** Length bounds of a generated key or value of size at least 1. */
  lemma FilledBounds(base: string, limit: uint32, repeat: string, idx: nat)
    requires limit >= 1
    ensures var r, ext := Filled(base, limit, repeat, idx), Extension(repeat, idx);
            && |r| >= limit - 1
            && (|r| == |base| + |ext| || |r| < limit - 1 + |ext|)
            && exists k :: k >= 1 && r == base + Repeated(ext, k)
  {
    var ext := Extension(repeat, idx);
    var k := Copies(|base|, |ext|, Target(limit));
    FilledLengthIs(base, limit, repeat, idx);
    FilledLengthBound(|base|, limit, |ext|);
    assert Filled(base, limit, repeat, idx) == base + Repeated(ext, k);
  }

  /* ---- datasets ---- */

  datatype SeedSpec = SeedSpec(
    count: uint32, ksize: uint32, vsize: uint32, continuous: bool,
    repeat: string, kseed: string, vseed: string)

  datatype Item = KeyValue(key: string, value: string) | KeyOnly(key: string)

  /** A sub-document dataset. To be loaded, `value` is the document made of the
      schema; to be run, the value that goes with the command. */
  datatype SubDocSpec = SubDocSpec(
    count: uint32, continuous: bool, load: bool, command: string, path: string, value: string)

  /** An N1QL, FTS or CBAS dataset: numbered documents, whose text comes from the
      JSON library. The fields are those of N1QL; the others have none and are
      never continuous. */
  datatype RecordSpec = RecordSpec(
    count: uint32, continuous: bool, fields: seq<(string, string)>, document: nat -> string)

  /** std::to_string of an int. */
  function PrintInt(i: int): string {
    if i < 0 then "-" + Print(-i) else Print(i)
  }

  /** What is stored under "id" once all fields are. */
  function IdOf(fields: seq<(string, string)>, id: string): string {
    if fields == [] then id
    else if Last(fields).0 == "id" then Last(fields).1
    else IdOf(Front(fields), id)
  }

  datatype Dataset = Inline(items: seq<Item>) | Seeded(seed: SeedSpec) | SubDoc(sub: SubDocSpec) | Records(rec: RecordSpec) {

    predicate Continuous() {
      match this
      case Inline(_) => false
      case Seeded(spec) => spec.continuous
      case SubDoc(spec) => spec.continuous
      case Records(spec) => spec.continuous
    }

    function Count(): nat {
      match this
      case Inline(items) => |items|
      case Seeded(spec) => spec.count
      case SubDoc(spec) => spec.count
      case Records(spec) => spec.count
    }

    /** The key init_data leaves in curk; past the last inline item it is empty. */
    function KeyAt(idx: nat): string {
      match this
      case Inline(items) => if idx < |items| then items[idx].key else ""
      case Seeded(spec) => Filled(spec.kseed, spec.ksize, spec.repeat, idx)
      case SubDoc(_) => PrintInt(ToInt32(idx))
      case Records(spec) => IdOf(spec.fields, PrintInt(ToInt32(idx)))
    }

    /** The value init_data leaves in curv; an inline item without a value
        leaves the previous one in place. */
    function ValueAt(idx: nat): string {
      match this
      case Inline(items) =>
        if idx < |items| && items[idx].KeyValue? then items[idx].value
        else if idx == 0 then "" else ValueAt(idx - 1)
      case Seeded(spec) => Filled(spec.vseed, spec.vsize, spec.repeat, idx)
      case SubDoc(spec) => spec.value
      case Records(spec) => spec.document(idx)
    }

    /** What command() returns: only a sub-document dataset to be run has one. */
    function Command(): string {
      if SubDoc? && !sub.load then sub.command else ""
    }

    function Path(): string {
      if SubDoc? && !sub.load then sub.path else ""
    }

    /** curidx++, with wrap-around for continuous datasets. */
    function NextIndex(idx: nat): nat {
      if Continuous() && idx + 1 >= Count() then 0 else idx + 1
    }

    /** curidx after start() and n calls of advance(). */
    function IndexAfter(n: nat): nat {
      if n == 0 then 0 else NextIndex(IndexAfter(n - 1))
    }

    predicate DoneAfter(n: nat) {
      !Continuous() && IndexAfter(n) >= Count()
    }
  }

  /** A continuous iterator cycles, a finite one counts straight through. */
  lemma {:induction false} IndexAfterClosedForm(d: Dataset, n: nat)
    ensures d.Continuous() && d.Count() > 0 ==> d.IndexAfter(n) == n % d.Count()
    ensures d.Continuous() && d.Count() == 0 ==> d.IndexAfter(n) == 0
    ensures !d.Continuous() ==> d.IndexAfter(n) == n && (d.DoneAfter(n) <==> n >= d.Count())
  {
    if n > 0 {
      IndexAfterClosedForm(d, n - 1);
      if d.Continuous() && d.Count() > 0 {
        ModStep(n - 1, d.Count());
      }
    }
  }

  /** The iterator visits items 0, 1, 2, ..., over and over if continuous; otherwise
      it is done after the last of count. */
  ghost predicate Visits(d: Dataset, continuous: bool, count: nat) {
    forall n: nat ::
      && d.IndexAfter(n) == (if !continuous then n else if count == 0 then 0 else n % count)
      && (d.DoneAfter(n) <==> !continuous && n >= count)
  }

  /** Inline items are never visited again, the others if their dataset says so. */
  lemma VisitsItems(d: Dataset)
    ensures d.Inline? ==> Visits(d, false, |d.items|)
    ensures d.Seeded? ==> Visits(d, d.seed.continuous, d.seed.count)
    ensures d.SubDoc? ==> Visits(d, d.sub.continuous, d.sub.count)
    ensures d.Records? ==> Visits(d, d.rec.continuous, d.rec.count)
  {
    var continuous, count := d.Continuous(), d.Count();
    forall n: nat
      ensures d.IndexAfter(n) == (if !continuous then n else if count == 0 then 0 else n % count)
      ensures d.DoneAfter(n) <==> !continuous && n >= count
    {
      IndexAfterClosedForm(d, n);
    }
    assert Visits(d, continuous, count);
    hide Visits;
  }

  /* ---- what items hold ---- */

  /** An inline item is visited with its own key, and with its own value or else
      that of the last item before it that has one. */
  lemma {:induction false} InlineItem(items: seq<Item>, idx: nat)
    requires idx < |items|
    ensures Inline(items).KeyAt(idx) == items[idx].key
    ensures (forall j: nat :: j <= idx ==> items[j].KeyOnly?) ==> Inline(items).ValueAt(idx) == ""
    ensures forall j: nat :: j <= idx && items[j].KeyValue? && (forall i: nat :: j < i <= idx ==> items[i].KeyOnly?)
              ==> Inline(items).ValueAt(idx) == items[j].value
  {
    if idx > 0 && items[idx].KeyOnly? {
      InlineItem(items, idx - 1);
    }
  }

  /** r is the seed and k copies of ext, character by character. */
  ghost predicate SeedAndCopies(r: string, seed: string, ext: string, k: nat)
    requires ext != []
  {
    && |r| == |seed| + k * |ext|
    && r[..|seed|] == seed
    && forall j :: 0 <= j < |r| - |seed| ==> r[|seed| + j] == ext[j % |ext|]
  }

  /** k copies of a text of step characters after length characters are enough for
      limit - 1 characters, in unsigned arithmetic; and no fewer are, or k is 1. */
  ghost predicate Fewest(length: nat, step: nat, limit: uint32, k: nat) {
    var enough := if limit == 0 then 0xFFFF_FFFF else limit - 1;
    k >= 1 && length + k * step >= enough && (k == 1 || length + (k - 1) * step < enough)
  }

  lemma {:induction false} RepeatedAt(ext: string, k: nat)
    requires ext != []
    ensures |Repeated(ext, k)| == k * |ext|
    ensures forall j :: 0 <= j < k * |ext| ==> Repeated(ext, k)[j] == ext[j % |ext|]
  {
    RepeatedLength(ext, k);
    if k > 0 {
      RepeatedAt(ext, k - 1);
      var before := (k - 1) * |ext|;
      assert k * |ext| == before + |ext|;
      forall j | before <= j < k * |ext|
        ensures Repeated(ext, k)[j] == ext[j % |ext|]
      {
        DivModUnique(j, |ext|, k - 1, j - before);
      }
    }
  }

  lemma FilledCopies(seed: string, limit: uint32, repeat: string, idx: nat) returns (k: nat)
    ensures SeedAndCopies(Filled(seed, limit, repeat, idx), seed, Extension(repeat, idx), k)
    ensures Fewest(|seed|, |Extension(repeat, idx)|, limit, k)
  {
    var ext := Extension(repeat, idx);
    k := Copies(|seed|, |ext|, Target(limit));
    CopiesFewest(|seed|, |ext|, limit);
    RepeatedAt(ext, k);
    hide Repeated, Copies, Extension, Fewest, Target;
  }

  lemma CopiesFewest(length: nat, step: nat, limit: uint32)
    requires step > 0
    ensures Fewest(length, step, limit, Copies(length, step, Target(limit)))
  {
    CopiesLeast(length, step, Target(limit));
    hide Copies;
  }

  /** Key and value of a seeded item: each is its own seed, followed by as few
      copies of repeat and the index as reach its size. */
  lemma SeededItem(spec: SeedSpec, idx: nat) returns (k: nat, v: nat)
    ensures var ext := spec.repeat + Print(idx);
            && ext != []
            && SeedAndCopies(Seeded(spec).KeyAt(idx), spec.kseed, ext, k) && Fewest(|spec.kseed|, |ext|, spec.ksize, k)
            && SeedAndCopies(Seeded(spec).ValueAt(idx), spec.vseed, ext, v) && Fewest(|spec.vseed|, |ext|, spec.vsize, v)
  {
    k := FilledCopies(spec.kseed, spec.ksize, spec.repeat, idx);
    v := FilledCopies(spec.vseed, spec.vsize, spec.repeat, idx);
    hide Copies, Repeated, SeedAndCopies, Fewest;
  }

  /** Field k is the last one called id. */
  ghost predicate LastId(fields: seq<(string, string)>, k: nat) {
    k < |fields| && fields[k].0 == "id" && NoId(fields[k + 1..])
  }

  ghost predicate NoId(fields: seq<(string, string)>) {
    forall k :: 0 <= k < |fields| ==> fields[k].0 != "id"
  }

  /** The key of a sub-document item is its index as an int, and so is that of a
      record item unless a field is called id: then it is what the last such field
      says. The values are the document or the value the command goes with. */
  lemma NumberedItem(d: Dataset, idx: uint32)
    requires d.SubDoc? || d.Records?
    ensures d.SubDoc? || NoId(d.rec.fields) ==>
              d.KeyAt(idx) == if idx < 0x8000_0000 then Print(idx) else "-" + Print(0x1_0000_0000 - idx)
    ensures d.Records? ==> (forall k: nat :: LastId(d.rec.fields, k) ==> d.KeyAt(idx) == d.rec.fields[k].1)
    ensures d.ValueAt(idx) == if d.SubDoc? then d.sub.value else d.rec.document(idx)
  {
    assert ToInt32(idx) == if idx < 0x8000_0000 then idx else idx - 0x1_0000_0000;
    if d.Records? {
      var id := PrintInt(ToInt32(idx));
      if NoId(d.rec.fields) {
        IdKept(d.rec.fields, id);
      }
      forall k: nat | LastId(d.rec.fields, k)
        ensures IdOf(d.rec.fields, id) == d.rec.fields[k].1
      {
        IdSet(d.rec.fields, k, id);
      }
    }
  }

  lemma {:induction false} IdKept(fields: seq<(string, string)>, id: string)
    requires NoId(fields)
    ensures IdOf(fields, id) == id
  {
    if fields != [] {
      assert Last(fields) == fields[|fields| - 1];
      IdKept(Front(fields), id);
    }
  }

  lemma {:induction false} IdSet(fields: seq<(string, string)>, k: nat, id: string)
    requires LastId(fields, k)
    ensures IdOf(fields, id) == fields[k].1
  {
    var n := |fields| - 1;
    if k < n {
      assert fields[k + 1..][n - k - 1] == Last(fields);
      assert Front(fields)[k + 1..] == Front(fields[k + 1..]);
      IdSet(Front(fields), k, id);
    }
  }

  /** start, advance, done, key, value, path and command of a dataset iterator. */
  class DatasetIterator {
    const data: Dataset
    var curidx: nat
    var curk: string
    var curv: string
    var curp: string
    var curc: string
    ghost var steps: nat

    ghost predicate Valid()
      reads this
    {
      && curidx == data.IndexAfter(steps)
      && curk == data.KeyAt(curidx)
      && curv == data.ValueAt(curidx)
      && curp == data.Path()
      && curc == data.Command()
    }

    constructor (data: Dataset)
      ensures this.data == data && curidx == 0 && curk == curv == curp == curc == ""
    {
      this.data := data;
      curidx := 0;
      curk, curv, curp, curc := "", "", "", "";
    }

    method InitData(idx: nat)
      requires data.Inline? ==> curv == if idx == 0 then "" else data.ValueAt(idx - 1)
      requires curp in {"", data.Path()} && curc in {"", data.Command()}
      modifies this`curk, this`curv, this`curp, this`curc
      ensures curk == data.KeyAt(idx) && curv == data.ValueAt(idx)
      ensures curp == data.Path() && curc == data.Command()
    {
      match data
      case Inline(items) =>
        if idx < |items| {
          curk := items[idx].key;
          if items[idx].KeyValue? {
            curv := items[idx].value;
          }
        } else {
          curk := "";
        }
      case Seeded(spec) =>
        curk := FillRepeat(spec.kseed, spec.ksize, spec.repeat, idx);
        curv := FillRepeat(spec.vseed, spec.vsize, spec.repeat, idx);
      case SubDoc(spec) =>
        curv := spec.value;
        if !spec.load {
          curp := spec.path;
          curc := spec.command;
        }
        curk := PrintInt(ToInt32(idx));
      case Records(spec) =>
        curv := spec.document(idx);
        curk := IdOf(spec.fields, PrintInt(ToInt32(idx)));
    }

    method Start()
      requires curv == curp == curc == ""
      modifies this
      ensures Valid() && steps == 0
    {
      curidx := 0;
      steps := 0;
      InitData(curidx);
    }

    method Advance()
      requires Valid()
      modifies this
      ensures Valid() && steps == old(steps) + 1
    {
      curidx := curidx + 1;
      if data.Continuous() && curidx >= data.Count() {
        curidx := 0;
      }
      steps := steps + 1;
      InitData(curidx);
    }

    method Done() returns (b: bool)
      requires Valid()
      ensures b == data.DoneAfter(steps)
    {
      b := !data.Continuous() && curidx >= data.Count();
    }
  }
}
