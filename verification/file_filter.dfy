/**
  `CompoundFileFilter` (src/org/ezze/utils/io/CompoundFileFilter.java): a
  duplicate-free list of choosable filters, a file is accepted when any of
  them accepts it, a description and a bounds-checked default index.

  A filter is an identity of a type with equality (`contains` compares
  filters with `equals`, which for these objects is identity); what a filter
  thinks of the file being asked about is a predicate over filters.
*/
module CompoundFileFilter {
  import opened JavaLang

  const UNDESCRIBED: string := "Undescribed files"

  datatype Compound<F> = Compound(description: string, filters: seq<F>, defaultIndex: int)

  predicate NoDuplicates<T(==)>(s: seq<T>) {
    forall i, j :: 0 <= i < j < |s| ==> s[i] != s[j]
  }

  /** What every public operation keeps: no filter twice, and the default is -1 or a position. */
  predicate Valid<F(==,!new)>(cf: Compound<F>) {
    NoDuplicates(cf.filters) && (cf.defaultIndex == -1 || 0 <= cf.defaultIndex < |cf.filters|)
  }

  /** The filter `new CompoundFileFilter()` starts from. */
  function Empty<F>(): (r: Compound<F>)
    ensures r.filters == [] && r.defaultIndex == -1 && r.description == UNDESCRIBED
  {
    Compound(UNDESCRIBED, [], -1)
  }

  /** `add`: ignores `null` and filters already present; otherwise appends. */
  function Add<F(==,!new)>(cf: Compound<F>, filter: Option<F>): (r: Compound<F>)
    ensures r.description == cf.description && r.defaultIndex == cf.defaultIndex
    ensures forall g :: g in r.filters <==> g in cf.filters || filter == Some(g)
    ensures |cf.filters| <= |r.filters| && r.filters[..|cf.filters|] == cf.filters
    ensures Valid(cf) ==> Valid(r)
  {
    if filter.None? || filter.value in cf.filters then cf
    else cf.(filters := cf.filters + [filter.value])
  }

  /** The position where `x` first occurs in `s`. */
  function FirstIndex<T(==)>(s: seq<T>, x: T): (i: nat)
    requires x in s
    ensures i < |s| && s[i] == x && x !in s[..i]
  {
    if s[0] == x then 0
    else
      assert s[1..][..FirstIndex(s[1..], x)] == s[1..FirstIndex(s[1..], x) + 1];
      1 + FirstIndex(s[1..], x)
  }

  /** An occurrence with no earlier one is the first. */
  lemma FirstIndexAt<T>(s: seq<T>, x: T, k: nat)
    requires k < |s| && s[k] == x && x !in s[..k]
    ensures FirstIndex(s, x) == k
  {
  }

  /**
    `new CompoundFileFilter(fileFilters)`: adds the listed filters in order.
    The result holds exactly the non-null filters of the list, each once, in
    the order of their first occurrence.
  */
  method Create<F(==,!new)>(fileFilters: Option<seq<Option<F>>>) returns (cf: Compound<F>)
    ensures Valid(cf)
    ensures cf.description == UNDESCRIBED && cf.defaultIndex == -1
    ensures fileFilters.None? ==> cf.filters == []
    ensures fileFilters.Some? ==> forall g :: g in cf.filters <==> Some(g) in fileFilters.value
    ensures fileFilters.Some? ==> forall i, j :: 0 <= i < j < |cf.filters| ==>
      FirstIndex(fileFilters.value, Some(cf.filters[i])) < FirstIndex(fileFilters.value, Some(cf.filters[j]))
  {
    cf := Empty();
    if fileFilters.None? || |fileFilters.value| == 0 {
      return;
    }
    var input := fileFilters.value;
    var k := 0;
    while k < |input|
      invariant 0 <= k <= |input|
      invariant Valid(cf)
      invariant cf.description == UNDESCRIBED && cf.defaultIndex == -1
      invariant forall g :: g in cf.filters <==> Some(g) in input[..k]
      invariant forall i :: 0 <= i < |cf.filters| ==> FirstIndex(input, Some(cf.filters[i])) < k
      invariant forall i, j :: 0 <= i < j < |cf.filters| ==>
        FirstIndex(input, Some(cf.filters[i])) < FirstIndex(input, Some(cf.filters[j]))
    {
      assert input[..k + 1] == input[..k] + [input[k]];
      if input[k].Some? && input[k].value !in cf.filters {
        FirstIndexAt(input, input[k], k);
      }
      cf := Add(cf, input[k]);
      k := k + 1;
    }
    assert input[..k] == input;
  }

  /** `accept`: asks the filters in order and stops at the first that accepts. */
  method Accept<F>(cf: Compound<F>, accepts: F -> bool) returns (r: bool)
    ensures r <==> exists i :: 0 <= i < |cf.filters| && accepts(cf.filters[i])
  {
    var i := 0;
    while i < |cf.filters|
      invariant 0 <= i <= |cf.filters|
      invariant forall j :: 0 <= j < i ==> !accepts(cf.filters[j])
    {
      if accepts(cf.filters[i]) {
        return true;
      }
      i := i + 1;
    }
    return false;
  }

  /** `setDescription`: `null` leaves the description as it was. */
  function SetDescription<F>(cf: Compound<F>, description: Option<string>): (r: Compound<F>)
    ensures r.filters == cf.filters && r.defaultIndex == cf.defaultIndex
    ensures r.description == description.GetOr(cf.description)
  {
    match description
    case None => cf
    case Some(d) => cf.(description := d)
  }

  /** `setDefaultFileFilterIndex`: indices outside the list are ignored. */
  function SetDefaultIndex<F(==,!new)>(cf: Compound<F>, index: int): (r: Compound<F>)
    ensures r.filters == cf.filters && r.description == cf.description
    ensures r.defaultIndex == index <==> 0 <= index < |cf.filters| || cf.defaultIndex == index
    ensures r.defaultIndex != index ==> r.defaultIndex == cf.defaultIndex
    ensures Valid(cf) ==> Valid(r)
  {
    if index < 0 || index >= |cf.filters| then cf else cf.(defaultIndex := index)
  }

  /** Any sequence of operations from a fresh filter keeps the list duplicate-free and the index in range. */
  datatype Op<F> = AddOp(filter: Option<F>) | DescribeOp(description: Option<string>) | DefaultOp(index: int)

  function Apply<F(==,!new)>(cf: Compound<F>, op: Op<F>): Compound<F> {
    match op
    case AddOp(f) => Add(cf, f)
    case DescribeOp(d) => SetDescription(cf, d)
    case DefaultOp(i) => SetDefaultIndex(cf, i)
  }

  function ApplyAll<F(==,!new)>(cf: Compound<F>, ops: seq<Op<F>>): Compound<F>
    decreases |ops|
  {
    if |ops| == 0 then cf else ApplyAll(Apply(cf, ops[0]), ops[1..])
  }

  lemma {:induction false} ApplyAllValid<F(!new)>(cf: Compound<F>, ops: seq<Op<F>>)
    requires Valid(cf)
    ensures Valid(ApplyAll(cf, ops))
    decreases |ops|
  {
    if |ops| > 0 {
      ApplyAllValid(Apply(cf, ops[0]), ops[1..]);
    }
  }

  /** A fresh filter is valid however it is used afterwards. */
  lemma FreshStaysValid<F(!new)>(ops: seq<Op<F>>)
    ensures Valid(ApplyAll(Empty(), ops))
  {
    ApplyAllValid(Empty(), ops);
  }
}
