/** The display name of a coded enumeration value: the C# code reads the
    [Display(Name = ...)] attribute of the enum member through reflection. */
module LabelResolver {
  import opened Tables

  /** Nullable `.Value` first, then the two `[0]` indexings of the reflection lookup. */
  function DisplayName(labels: Code -> Option<string>, code: Option<Code>, field: string): (r: Result<string>)
    ensures r.Ok? <==> code.Some? && labels(code.value).Some?
    ensures r.Ok? ==> labels(code.value) == Some(r.value)
    ensures code.None? ==> r == Err(MissingCode(field))
    ensures code.Some? && labels(code.value).None? ==> r == Err(NoDisplayLabel(field, code.value))
  {
    if code.None? then Err(MissingCode(field))
    else
      match labels(code.value)
      case None => Err(NoDisplayLabel(field, code.value))
      case Some(name) => Ok(name)
  }
}
