/** The admin activity page: the pager over the activity log (four records a page) and
    the text shown for each record. */
module ActivityPage {
  import opened Wrappers
  import opened Text
  import opened JsonText
  import opened ActivityStorage
  import opened CategoryRoutes

  /** The page size the page asks for. */
  const PageSize: nat := 4

  /** `data?.totalCount ?? 0`. */
  function TotalCount(data: Option<ActivityStorage.ActivityPage>): (n: nat)
    ensures data.None? ==> n == 0
    ensures data.Some? ==> n == data.value.totalCount
  {
    if data.None? then 0 else data.value.totalCount
  }

  /** `Math.ceil(totalCount / pageSize)`: the fewest pages of four that hold every record. */
  function PageCount(totalCount: nat): (n: nat)
    ensures n * PageSize >= totalCount
    ensures n == 0 || (n - 1) * PageSize < totalCount
  {
    CeilDiv(totalCount, PageSize)
  }

  function LastPage(totalCount: nat): nat {
    if PageCount(totalCount) == 0 then 1 else PageCount(totalCount)
  }

  /** The previous button: back one page unless on the first. */
  function PreviousPage(page: int): (p: int)
    ensures page > 1 ==> p == page - 1
    ensures page <= 1 ==> p == page
  {
    if page > 1 then page - 1 else page
  }

  /** The next button: on one page unless on the last. */
  function NextPage(page: int, totalCount: nat): (p: int)
    ensures page < PageCount(totalCount) ==> p == page + 1
    ensures page >= PageCount(totalCount) ==> p == page
  {
    if page < PageCount(totalCount) then page + 1 else page
  }

  /** Every transition keeps the page between 1 and the last page, for a fixed total. */
  lemma TransitionsStayInRange(page: int, totalCount: nat, link: int)
    requires 1 <= page <= LastPage(totalCount)
    requires 1 <= link <= PageCount(totalCount)
    ensures 1 <= PreviousPage(page) <= LastPage(totalCount)
    ensures 1 <= NextPage(page, totalCount) <= LastPage(totalCount)
    ensures 1 <= link <= LastPage(totalCount)
  {
  }

  /** Pressing next `k` times from `page`. */
  function NextTimes(page: int, totalCount: nat, k: nat): int
    decreases k
  {
    if k == 0 then page else NextTimes(NextPage(page, totalCount), totalCount, k - 1)
  }

  /** Pressing next from page 1 walks through the pages one by one and stops at the last. */
  lemma {:induction false} NextWalksAllPages(page: int, totalCount: nat, k: nat)
    requires 1 <= page <= LastPage(totalCount)
    ensures NextTimes(page, totalCount, k) == if page + k <= LastPage(totalCount) then page + k else LastPage(totalCount)
    decreases k
  {
    if k > 0 {
      NextWalksAllPages(NextPage(page, totalCount), totalCount, k - 1);
    }
  }

  /** The page state of the activity page. */
  class Pager {
    var page: int

    ghost predicate InRange(totalCount: nat)
      reads this
    {
      1 <= page <= LastPage(totalCount)
    }

    /** `useState(1)`. */
    constructor ()
      ensures page == 1
      ensures forall t: nat :: InRange(t)
    {
      page := 1;
    }

    method Previous(totalCount: nat)
      requires InRange(totalCount)
      modifies this
      ensures page == PreviousPage(old(page)) && InRange(totalCount)
    {
      if page > 1 {
        page := page - 1;
      }
    }

    method Next(totalCount: nat)
      requires InRange(totalCount)
      modifies this
      ensures page == NextPage(old(page), totalCount) && InRange(totalCount)
    {
      if page < PageCount(totalCount) {
        page := page + 1;
      }
    }

    /** The links are numbered 1 to the page count; clicking one selects that page. */
    method SelectLink(pageNum: int, totalCount: nat)
      requires 1 <= pageNum <= PageCount(totalCount)
      modifies this
      ensures page == pageNum && InRange(totalCount)
    {
      page := pageNum;
    }
  }

  /** The details as the server hands them out: the JSON text the category route stores is
      parsed back into an object on read; any other value is passed on as it is. */
  function ServedDetails(stored: Json): (j: Json)
    ensures !stored.Str? ==> j == stored
  {
    if stored.Str? && ParseCategoryDetails(stored.s).Some? then
      var (id, name) := ParseCategoryDetails(stored.s).value;
      Obj(map["categoryId" := Num(id), "categoryName" := Str(name)])
    else stored
  }

  /** `String(n)` for an integer. */
  function IntToString(n: int): string {
    if n < 0 then "-" + NatToString(-n) else NatToString(n)
  }

  /** How a template literal shows a value; `None` stands for `undefined`. */
  function Display(v: Option<Json>): string {
    match v
    case None => "undefined"
    case Some(Null) => "null"
    case Some(Bool(b)) => if b then "true" else "false"
    case Some(Num(n)) => IntToString(n)
    case Some(Str(s)) => s
    case Some(Obj(_)) => "[object Object]"
  }

  /** `details.categoryName` on a value that is not null: objects may hold it, other values
      do not. */
  function CategoryNameOf(details: Json): Option<Json>
    requires !details.Null?
  {
    if details.Obj? && "categoryName" in details.fields then Some(details.fields["categoryName"]) else None
  }

  const CreatedPrefix: string := "Heeft categorie \""
  const CreatedSuffix: string := "\" aangemaakt"
  const OtherPrefix: string := "Heeft actie uitgevoerd: "

  /** `getActivityDescription(activity)`; `None` when reading `categoryName` of null throws. */
  function Description(action: string, details: Json): (d: Option<string>)
    ensures action != CreatedCategory ==> d == Some(OtherPrefix + action)
    ensures action == CreatedCategory ==> (d.None? <==> details.Null?)
    ensures action == CreatedCategory && details.Obj? && "categoryName" in details.fields
            && details.fields["categoryName"].Str? ==>
              d == Some(CreatedPrefix + details.fields["categoryName"].s + CreatedSuffix)
  {
    if action == CreatedCategory then
      if details.Null? then None
      else Some(CreatedPrefix + Display(CategoryNameOf(details)) + CreatedSuffix)
    else Some(OtherPrefix + action)
  }

  /** A record written by a successful category POST is described with the name of the
      category it created. */
  lemma CreatedCategoryDescribed(c: Category, userId: nat)
    ensures Description(CreatedCategory, ServedDetails(StoredDetails(AuditRecord(c, userId).details)))
              == Some(CreatedPrefix + c.name + CreatedSuffix)
  {
    AuditRecordNamesCategory(c, userId);
  }

  /** No stored record makes the description throw: `create` never stores null details. */
  lemma StoredRecordsAreDescribed(log: ActivityLog, k: nat)
    requires log.Valid() && k < |log.rows|
    ensures Description(log.rows[k].action, ServedDetails(log.rows[k].details)).Some?
  {
    assert Truthy(log.rows[k].details);
  }

  /** `action.replace(/_/g, " ")`: every underscore becomes a space, nothing else changes. */
  function ActionLabel(action: string): (shown: string)
    ensures |shown| == |action| && '_' !in shown
    ensures forall i :: 0 <= i < |action| && action[i] != '_' ==> shown[i] == action[i]
    ensures forall i :: 0 <= i < |action| && action[i] == '_' ==> shown[i] == ' '
  {
    ReplaceAll(action, '_', ' ')
  }
}
