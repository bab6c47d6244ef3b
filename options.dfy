/** The command-line consistency checks made before any connection is opened: at most one
    filter (`--name` or `--uuid`) and at most one action (query, delete, create, modify). */
module Options {
  import opened Wrappers
  import opened Text

  /** The parsed options the checks read. `--name`/`--uuid` keep the text given (or `None`);
      the four action switches are set or not (`modifyAction` is `--modify`). */
  datatype Selection = Selection(
    name: Option<string>,
    uuid: Option<string>,
    query: bool,
    delete: bool,
    create: bool,
    modifyAction: bool)

  /** The usage errors that end the run. */
  datatype UsageError = MultipleFilters | MultipleActions

  const MultipleFiltersMessage := "A single filter must be specified at a time"
  const MultipleActionsMessage := "A single action must be specified at a time"

  /** The message the option parser reports for each usage error. */
  function Message(e: UsageError): (m: string)
    ensures m == MultipleFiltersMessage <==> e == MultipleFilters
    ensures m == MultipleActionsMessage <==> e == MultipleActions
  {
    match e
    case MultipleFilters => MultipleFiltersMessage
    case MultipleActions => MultipleActionsMessage
  }

  /** How many of the four actions were requested. */
  function ActionCount(o: Selection): (n: nat)
    ensures n <= 4
    ensures n == 0 <==> !o.query && !o.delete && !o.create && !o.modifyAction
  {
    (if o.query then 1 else 0) + (if o.delete then 1 else 0) +
    (if o.create then 1 else 0) + (if o.modifyAction then 1 else 0)
  }

  /** The checks in the order the run makes them: the filter check first, then one check per
      action against the other three. The first that fires ends the run. */
  function CheckSelection(o: Selection): (r: Option<UsageError>)
    ensures r == Some(MultipleFilters) <==> Truthy(o.name) && Truthy(o.uuid)
    ensures r == Some(MultipleActions) <==>
              !(Truthy(o.name) && Truthy(o.uuid)) && ActionCount(o) >= 2
    ensures r == None <==> !(Truthy(o.name) && Truthy(o.uuid)) && ActionCount(o) <= 1
  {
    if Truthy(o.name) && Truthy(o.uuid) then Some(MultipleFilters)
    else if o.query && (o.delete || o.create || o.modifyAction) then Some(MultipleActions)
    else if o.delete && (o.query || o.create || o.modifyAction) then Some(MultipleActions)
    else if o.create && (o.query || o.delete || o.modifyAction) then Some(MultipleActions)
    else if o.modifyAction && (o.query || o.create || o.delete) then Some(MultipleActions)
    else None
  }

  /** The message the run ends with, if the checks reject the options: the filter message when
      both filters are given, otherwise the action message when two or more actions are. */
  function Diagnose(o: Selection): (m: Option<string>)
    ensures m == Some(MultipleFiltersMessage) <==> Truthy(o.name) && Truthy(o.uuid)
    ensures m == Some(MultipleActionsMessage) <==>
              !(Truthy(o.name) && Truthy(o.uuid)) && ActionCount(o) >= 2
    ensures m == None <==> !(Truthy(o.name) && Truthy(o.uuid)) && ActionCount(o) <= 1
  {
    match CheckSelection(o)
    case Some(e) => Some(Message(e))
    case None => None
  }
}
