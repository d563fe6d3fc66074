/** The product-category routes: listing, creating a category together with its audit
    record, and the case-insensitive name check the creation form calls first. */
module CategoryRoutes {
  import opened Wrappers
  import opened Text
  import opened UserStorage
  import opened AdminGuard
  import opened JsonText
  import opened ActivityStorage

  /** `name varchar(60)`, also the bound the generated insert schema enforces. */
  const CategoryNameMaxLength: nat := 60

  const NameRequired: string := "Naam is verplicht."
  const InternalError: string := "Interne fout."

  /** A row of `product_categories`. */
  datatype Category = Category(id: nat, name: string, createdAt: nat, createdById: nat)

  /** Why the insert is refused: the column width, or the unique index on the exact name. */
  datatype CategoryDbError = NameTooLong | DuplicateName

  /** The request body as the schema sees it: `name` is `None` when it is missing or not a string. */
  datatype CategoryBody = CategoryBody(name: Option<string>)

  /** What a category handler sends. */
  datatype CategoryReply =
    | SendStatus(status: nat)
    | SendError(status: nat, error: string)
    | SendValidationErrors(status: nat)
    | SendCategory(status: nat, category: Category)
    | SendCategories(status: nat, categories: seq<Category>)
    | SendNameCheck(status: nat, nameExists: bool)

  /** The row whose name is exactly `name`, if any. */
  function FindByName(rows: seq<Category>, name: string): (r: Option<Category>)
    ensures r.Some? ==> r.value in rows && r.value.name == name
    ensures r.None? <==> forall k :: 0 <= k < |rows| ==> rows[k].name != name
  {
    if rows == [] then None
    else if rows[0].name == name then Some(rows[0])
    else FindByName(rows[1..], name)
  }

  /** The error the insert of a category named `name` raises, if any. */
  function CreateError(rows: seq<Category>, name: string): (e: Option<CategoryDbError>)
    ensures e == Some(DuplicateName) ==> exists k :: 0 <= k < |rows| && rows[k].name == name
    ensures e.None? <==> |name| <= CategoryNameMaxLength && forall k :: 0 <= k < |rows| ==> rows[k].name != name
  {
    if |name| > CategoryNameMaxLength then Some(NameTooLong)
    else if FindByName(rows, name).Some? then Some(DuplicateName)
    else None
  }

  /** The generated schema accepts a string of at most 60 characters. */
  predicate SchemaAccepts(body: CategoryBody) {
    body.name.Some? && |body.name.value| <= CategoryNameMaxLength
  }

  /** The schema check keeps over-long names from the database: an accepted name is
      refused by the insert only as a duplicate. */
  lemma SchemaKeepsNamesInColumn(rows: seq<Category>, body: CategoryBody)
    requires SchemaAccepts(body)
    ensures CreateError(rows, body.name.value) != Some(NameTooLong)
    ensures CreateError(rows, body.name.value).Some? <==> FindByName(rows, body.name.value).Some?
  {
  }

  /** The audit record a successful POST appends: `JSON.stringify({categoryId, categoryName})`
      of the created row, stored as a JSON string. */
  function AuditRecord(c: Category, userId: nat): (a: InsertActivity)
    ensures a.userId == userId && a.action == CreatedCategory
    ensures a.details.Some? && a.details.value.Str? && Truthy(a.details.value)
  {
    InsertActivity(userId, CreatedCategory, Some(Str(CategoryDetailsText(c.id, c.name))))
  }

  /** The stored audit details name the category that was created: reading the text
      back gives its id and its name. */
  lemma AuditRecordNamesCategory(c: Category, userId: nat)
    ensures ParseCategoryDetails(StoredDetails(AuditRecord(c, userId).details).s) == Some((c.id, c.name))
  {
    CategoryDetailsRoundTrip(c.id, c.name);
  }

  class CategoryTable {
    var rows: seq<Category>
    var nextId: nat
    var clock: nat

    /** Serial ids, the unique name index and the column width. */
    ghost predicate Valid()
      reads this
    {
      && (forall k :: 0 <= k < |rows| ==> rows[k].id < nextId && |rows[k].name| <= CategoryNameMaxLength)
      && (forall j, k :: 0 <= j < k < |rows| ==> rows[j].id != rows[k].id && rows[j].name != rows[k].name)
    }

    constructor ()
      ensures Valid() && rows == []
    {
      rows, nextId, clock := [], 1, 0;
    }

    /** `create(category)`: one new row with the next id, or the database error and no change. */
    method Create(name: string, createdById: nat) returns (r: Result<Category, CategoryDbError>)
      requires Valid()
      modifies this
      ensures Valid()
      ensures r.Err? ==> CreateError(old(rows), name) == Some(r.error) && rows == old(rows)
      ensures r.Ok? ==> && CreateError(old(rows), name).None?
                        && r.value == Category(old(nextId), name, old(clock), createdById)
                        && rows == old(rows) + [r.value]
    {
      var err := CreateError(rows, name);
      if err.Some? {
        return Err(err.value);
      }
      r := Ok(Category(nextId, name, clock, createdById));
      rows := rows + [r.value];
      nextId := nextId + 1;
      clock := clock + 1;
    }
  }

  /** GET /api/categories: 401 without a user, otherwise every row. */
  method ListCategories(user: Option<FullUser>, categories: CategoryTable) returns (reply: CategoryReply)
    ensures user.None? <==> reply == SendStatus(401)
    ensures user.Some? ==> reply == SendCategories(200, categories.rows)
  {
    if user.None? {
      return SendStatus(401);
    }
    reply := SendCategories(200, categories.rows);
  }

  /** POST /api/categories, behind the admin guard. A request that gets past every check
      creates exactly one category owned by the caller and then appends exactly one
      `CREATED_CATEGORY` record by the same user naming it; every other request changes
      neither table. */
  method PostCategory(user: Option<FullUser>, categories: CategoryTable, log: ActivityLog, body: CategoryBody)
    returns (reply: CategoryReply)
    requires categories.Valid() && log.Valid()
    modifies categories, log
    ensures categories.Valid() && log.Valid()
    ensures RequireAdmin(user).Forbidden? ==> reply == SendError(403, ForbiddenMessage)
    ensures user.None? ==> reply == SendError(403, ForbiddenMessage)
    ensures RequireAdmin(user).CallNext? && !SchemaAccepts(body) ==> reply == SendValidationErrors(400)
    ensures RequireAdmin(user).CallNext? && SchemaAccepts(body) && Trim(body.name.value) == [] ==>
              reply == SendError(400, NameRequired)
    ensures RequireAdmin(user).CallNext? && SchemaAccepts(body) && Trim(body.name.value) != []
            && CreateError(old(categories.rows), body.name.value).Some? ==>
              reply == SendError(500, InternalError)
    ensures !reply.SendCategory? ==> categories.rows == old(categories.rows) && log.rows == old(log.rows)
    ensures reply.SendCategory? ==>
              && user.Some? && SchemaAccepts(body)
              && reply.status == 201
              && reply.category == Category(old(categories.nextId), body.name.value, old(categories.clock), user.value.id)
              && categories.rows == old(categories.rows) + [reply.category]
              && log.rows == old(log.rows) + [Activity(old(log.nextId), user.value.id, CreatedCategory,
                                                       Str(CategoryDetailsText(reply.category.id, body.name.value)),
                                                       old(log.clock))]
    ensures reply.SendCategory? <==>
              && RequireAdmin(user).CallNext? && SchemaAccepts(body) && Trim(body.name.value) != []
              && CreateError(old(categories.rows), body.name.value).None?
  {
    var decision := RequireAdmin(user);
    if decision.Forbidden? {
      return SendError(decision.status, decision.error);
    }
    if !SchemaAccepts(body) {
      return SendValidationErrors(400);
    }
    var name := body.name.value;
    if Trim(name) == [] {
      return SendError(400, NameRequired);
    }
    var created := categories.Create(name, user.value.id);
    if created.Err? {
      return SendError(500, InternalError);
    }
    var category := created.value;
    var _ := log.Create(AuditRecord(category, user.value.id));
    reply := SendCategory(201, category);
  }

  /** `req.query.name?.toString().trim().toLowerCase()`. */
  function Normalize(query: string): (n: string)
    ensures |n| <= |query| && IsLowerCase(n)
    ensures n == [] || (!IsWhitespace(n[0]) && !IsWhitespace(n[|n| - 1]))
    ensures exists i :: TrimmedAt(ToLower(query), n, i)
  {
    var t := Trim(query);
    var i :| TrimmedAt(query, t, i);
    LowerKeepsTrimmed(query, t, i);
    var n := ToLower(t);
    assert n != [] ==> n[0] == LowerChar(t[0]) && n[|n| - 1] == LowerChar(t[|t| - 1]);
    n
  }

  /** `SELECT ... WHERE lower(name) = $1 LIMIT 1` returned a row. */
  function NameTaken(rows: seq<Category>, normalized: string): (r: bool)
    ensures r <==> exists k :: 0 <= k < |rows| && ToLower(rows[k].name) == normalized
  {
    if rows == [] then false
    else if ToLower(rows[0].name) == normalized then true
    else
      var r := NameTaken(rows[1..], normalized);
      assert forall k :: 1 <= k < |rows| ==> rows[k] == rows[1..][k - 1];
      r
  }

  /** GET /api/categories/check-name?name=...: 401 without a user, 400 when the name
      normalizes to nothing, otherwise whether a stored name matches case-insensitively. */
  method CheckName(user: Option<FullUser>, categories: CategoryTable, query: Option<string>)
    returns (reply: CategoryReply)
    ensures user.None? ==> reply == SendStatus(401)
    ensures user.Some? && (query.None? || Normalize(query.value) == []) ==> reply == SendError(400, NameRequired)
    ensures user.Some? && query.Some? && Normalize(query.value) != [] ==>
              && reply.SendNameCheck? && reply.status == 200
              && (reply.nameExists <==> exists k :: 0 <= k < |categories.rows|
                                                   && ToLower(categories.rows[k].name) == Normalize(query.value))
  {
    if user.None? {
      return SendStatus(401);
    }
    if query.None? || Normalize(query.value) == [] {
      return SendError(400, NameRequired);
    }
    reply := SendNameCheck(200, NameTaken(categories.rows, Normalize(query.value)));
  }

  /** As written, the check compares the trimmed query with the untrimmed stored name, so
      a stored name that begins with whitespace is never reported, whatever the query. */
  lemma PaddedNameNeverMatched(rows: seq<Category>, k: nat, query: string)
    requires k < |rows| && rows[k].name != [] && IsWhitespace(rows[k].name[0])
    ensures ToLower(rows[k].name) != Normalize(query)
  {
    var lowered := ToLower(rows[k].name);
    assert lowered[0] == LowerChar(rows[k].name[0]) == rows[k].name[0];
  }

  /** The discrepancy: once a name with leading whitespace such as " Kruiden " is the
      stored category, checking that same name reports no match although it is not
      blank, and the POST the form then sends fails on the unique index. */
  lemma PaddedDuplicateSlipsThrough(c: Category)
    requires |c.name| <= CategoryNameMaxLength
    requires c.name != [] && IsWhitespace(c.name[0]) && !AllWhitespace(c.name)
    ensures Trim(c.name) != []
    ensures !NameTaken([c], Normalize(c.name))
    ensures CreateError([c], c.name) == Some(DuplicateName)
  {
    TrimEmptyIff(c.name);
    PaddedNameNeverMatched([c], 0, c.name);
  }

  /** The same on the name " Kruiden ". */
  lemma PaddedKruidenSlipsThrough()
    ensures !NameTaken([Category(1, " Kruiden ", 0, 1)], Normalize(" Kruiden "))
    ensures CreateError([Category(1, " Kruiden ", 0, 1)], " Kruiden ") == Some(DuplicateName)
  {
    var c := Category(1, " Kruiden ", 0, 1);
    assert !IsWhitespace(c.name[1]);
    PaddedDuplicateSlipsThrough(c);
  }

  /** The check the creation form evidently relies on: stored names are compared after
      the same trimming and lower-casing as the query. */
  function NameTakenTrimmed(rows: seq<Category>, normalized: string): (r: bool)
    ensures r <==> exists k :: 0 <= k < |rows| && Normalize(rows[k].name) == normalized
  {
    var keys := seq(|rows|, k requires 0 <= k < |rows| => Normalize(rows[k].name));
    assert forall k :: 0 <= k < |rows| ==> keys[k] == Normalize(rows[k].name);
    normalized in keys
  }

  /** With the corrected check, a name the POST would refuse as a duplicate is always
      reported as taken when checked with that same name first. */
  lemma CorrectedCheckSeesEveryDuplicate(rows: seq<Category>, name: string)
    requires CreateError(rows, name) == Some(DuplicateName)
    ensures NameTakenTrimmed(rows, Normalize(name))
  {
    var k :| 0 <= k < |rows| && rows[k].name == name;
    assert Normalize(rows[k].name) == Normalize(name);
  }

  /** On a table whose names carry no surrounding whitespace the two checks agree. */
  lemma CorrectedCheckAgreesOnTrimmedNames(rows: seq<Category>, normalized: string)
    requires forall k :: 0 <= k < |rows| ==> Trim(rows[k].name) == rows[k].name
    ensures NameTakenTrimmed(rows, normalized) == NameTaken(rows, normalized)
  {
    forall k | 0 <= k < |rows| ensures Normalize(rows[k].name) == ToLower(rows[k].name) {
    }
  }
}
