/**
  The information lines of `AboutBoxInformation`
  (src/org/ezze/utils/ui/aboutbox/AboutBoxInformation.java): an append-only
  list of (title, value, link) lines that refuses lines without a value, with
  a count and a bounds-checked getter.
*/
module AboutBoxInformation {
  import opened JavaLang

  datatype InformationLine = InformationLine(title: Option<string>, value: string, link: Option<string>)

  datatype Information = Information(lines: seq<InformationLine>)

  /** A freshly constructed information object. */
  const Fresh: Information := Information([])

  /** `getInformationLinesCount`. */
  function Count(info: Information): nat {
    |info.lines|
  }

  /** `getInformationLine`: `null` outside `[0, count)`. */
  function GetInformationLine(info: Information, index: int): (r: Option<InformationLine>)
    ensures r.Some? <==> 0 <= index < Count(info)
    ensures r.Some? ==> r.value == info.lines[index]
  {
    if index < 0 || index >= |info.lines| then None else Some(info.lines[index])
  }

  /** `addInformationLine(title, value, link)`: a `null` value adds nothing. */
  function AddInformationLine(info: Information, title: Option<string>, value: Option<string>,
                              link: Option<string>): (r: Information)
    ensures value.None? ==> r == info
    ensures value.Some? ==> Count(r) == Count(info) + 1
    ensures value.Some? ==> GetInformationLine(r, Count(info)) == Some(InformationLine(title, value.value, link))
    ensures forall i :: 0 <= i < Count(info) ==> GetInformationLine(r, i) == GetInformationLine(info, i)
  {
    match value
    case None => info
    case Some(v) => Information(info.lines + [InformationLine(title, v, link)])
  }

  /** `addInformationLine(value)`: a line with neither title nor link. */
  function AddValue(info: Information, value: Option<string>): (r: Information)
    ensures value.None? ==> r == info
    ensures value.Some? ==> Count(r) == Count(info) + 1
    ensures value.Some? ==> GetInformationLine(r, Count(info)) == Some(InformationLine(None, value.value, None))
    ensures forall i :: 0 <= i < Count(info) ==> GetInformationLine(r, i) == GetInformationLine(info, i)
  {
    AddInformationLine(info, None, value, None)
  }

  /** `addInformationLine(title, value)`: a line without a link. */
  function AddTitledValue(info: Information, title: Option<string>, value: Option<string>): (r: Information)
    ensures value.None? ==> r == info
    ensures value.Some? ==> Count(r) == Count(info) + 1
    ensures value.Some? ==> GetInformationLine(r, Count(info)) == Some(InformationLine(title, value.value, None))
    ensures forall i :: 0 <= i < Count(info) ==> GetInformationLine(r, i) == GetInformationLine(info, i)
  {
    AddInformationLine(info, title, value, None)
  }

  /** The lines a run of `addInformationLine(value)` calls should leave: one per non-null value, in order. */
  function ValueLines(values: seq<Option<string>>): seq<InformationLine> {
    if |values| == 0 then []
    else match values[|values| - 1]
      case None => ValueLines(values[..|values| - 1])
      case Some(v) => ValueLines(values[..|values| - 1]) + [InformationLine(None, v, None)]
  }

  /** Calling `addInformationLine(value)` for each value in turn. */
  function AddValues(info: Information, values: seq<Option<string>>): Information
    decreases |values|
  {
    if |values| == 0 then info else AddValues(AddValue(info, values[0]), values[1..])
  }

  /** Adding goes after whatever was there. */
  lemma {:induction false} AddValuesAppends(info: Information, values: seq<Option<string>>)
    ensures AddValues(info, values).lines == info.lines + ValueLines(values)
    decreases |values|
  {
    if |values| > 0 {
      var rest := values[1..];
      AddValuesAppends(AddValue(info, values[0]), rest);
      ValueLinesCons(values[0], rest);
      assert [values[0]] + rest == values;
    }
  }

  lemma {:induction false} ValueLinesCons(v: Option<string>, rest: seq<Option<string>>)
    ensures ValueLines([v] + rest) == (if v.Some? then [InformationLine(None, v.value, None)] else []) + ValueLines(rest)
    decreases |rest|
  {
    if |rest| > 0 {
      var front := rest[..|rest| - 1];
      ValueLinesCons(v, front);
      assert ([v] + rest)[..|[v] + rest| - 1] == [v] + front;
    } else {
      assert ([v] + rest)[..|[v] + rest| - 1] == [];
    }
  }

  /** How many of `values` are not `null`. */
  function NonNullCount(values: seq<Option<string>>): nat
    decreases |values|
  {
    if |values| == 0 then 0 else (if values[0].Some? then 1 else 0) + NonNullCount(values[1..])
  }

  /** `getInformationLinesCount` grows by one for each non-null value added, and only for those. */
  lemma {:induction false} CountCountsValues(info: Information, values: seq<Option<string>>)
    ensures Count(AddValues(info, values)) == Count(info) + NonNullCount(values)
    decreases |values|
  {
    if |values| > 0 {
      CountCountsValues(AddValue(info, values[0]), values[1..]);
    }
  }

  /**
    A fresh object fed a run of values holds exactly the non-null values,
    in order: the count is the number of non-null values and the getter
    finds each at its position.
  */
  lemma FreshAddValues(values: seq<Option<string>>)
    ensures AddValues(Fresh, values).lines == ValueLines(values)
  {
    AddValuesAppends(Fresh, values);
  }
}
