/**
  One "order by" term (`Sort`). Rendering fills in the default direction
  and writes it back into the record, so the call returns the updated
  record next to the text.
 */
module Sorts {
  import opened Outcomes

  const Ascending: string := "asc"
  const Descending: string := "desc"

  datatype Sort = Sort(field: string, direction: string)

  /** `Sort.validate`. */
  function SortError(s: Sort): Option<Fault> {
    if s.field == "" then Some(Error("field is required")) else None
  }

  /** The direction actually rendered: an empty one means ascending. */
  function EffectiveDirection(s: Sort): (dir: string)
    ensures dir != ""
    ensures s.direction != "" ==> dir == s.direction
  {
    if s.direction == "" then Ascending else s.direction
  }

  /** `Sort.ToSQL`: the text "<field> <direction>" and the record as the call
      leaves it. */
  function SortToSQL(s: Sort): (r: Result<(string, Sort)>)
    ensures r.Failure? <==> s.field == ""
    ensures r.Failure? ==> r.fault == Error("field is required")
  {
    match SortError(s)
    case Some(e) => Failure(e)
    case None =>
      var s' := s.(direction := EffectiveDirection(s));
      Success((s'.field + " " + s'.direction, s'))
  }

  /** The rendered text reads back as the field, one space and a non-empty
      direction: the given one verbatim, or "asc" when none was given. */
  lemma SortTextSplits(s: Sort)
    requires s.field != ""
    ensures SortToSQL(s).Success?
    ensures var text := SortToSQL(s).value.0;
      && |text| > |s.field| + 1
      && text[..|s.field|] == s.field
      && text[|s.field|] == ' '
      && text[|s.field| + 1..] == (if s.direction == "" then Ascending else s.direction)
  {
    var text := SortToSQL(s).value.0;
    assert text == s.field + " " + EffectiveDirection(s);
    assert text[|s.field| + 1..] == EffectiveDirection(s);
  }

  /** The write-back touches nothing but an empty direction, and a second
      call returns the same text and leaves the record as it is. */
  lemma SortWriteBackIdempotent(s: Sort)
    requires SortToSQL(s).Success?
    ensures var (text, s') := SortToSQL(s).value;
      && s'.field == s.field
      && (s.direction != "" ==> s' == s)
      && SortToSQL(s') == Success((text, s'))
  {
  }
}
