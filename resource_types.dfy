/** The records of the resource service (`types/resource.ts`): a stored
    resource and the inputs of create, update and list. */
module ResourceTypes {
  import opened Wrappers

  /** The two statuses a resource can have; the table refuses any other. */
  datatype Status = Active | Inactive

  /** The text stored for a status. */
  function StatusText(s: Status): string {
    match s
    case Active => ActiveText
    case Inactive => InactiveText
  }

  const ActiveText := "active"
  const InactiveText := "inactive"

  /** The status a text names, if any. */
  function ParseStatus(t: string): (r: Option<Status>)
    ensures r.Some? ==> StatusText(r.value) == t
  {
    if t == ActiveText then Some(Active)
    else if t == InactiveText then Some(Inactive)
    else None
  }

  /** Every status text names its status, and nothing else names one. */
  lemma StatusRoundTrip(s: Status, t: string)
    ensures ParseStatus(StatusText(s)) == Some(s)
    ensures ParseStatus(t).None? <==> t != StatusText(Active) && t != StatusText(Inactive)
  {
  }

  /** A row of the `resources` table; the timestamps are ISO-8601 texts. */
  datatype Resource = Resource(
    id: int,
    name: string,
    description: string,
    category: string,
    status: Status,
    createdAt: string,
    updatedAt: string)

  /** What `create` is given; the status may be left out. */
  datatype CreateResourceInput = CreateResourceInput(
    name: string,
    description: string,
    category: string,
    status: Option<Status>)

  /** What `update` is given: any subset of the editable fields. */
  datatype UpdateResourceInput = UpdateResourceInput(
    name: Option<string>,
    description: Option<string>,
    category: Option<string>,
    status: Option<Status>)

  /** The list filters. The status is kept as text because the validated
      query may carry the empty string for it. */
  datatype ResourceFilters = ResourceFilters(
    category: Option<string>,
    status: Option<string>,
    search: Option<string>,
    limit: Option<int>,
    offset: Option<int>)

  /** An update that supplies no field at all. */
  predicate NoFields(input: UpdateResourceInput) {
    input.name.None? && input.description.None? && input.category.None? && input.status.None?
  }
}
