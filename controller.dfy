/** `ResourceController` of `controllers/resourceController.ts`: each
    handler validates its request, calls the repository and either writes
    a success response or passes an `ApiError` to `next`. A handler is a
    method over the repository that returns the response it decides on. */
module Controller {
  import opened Wrappers
  import opened ResourceTypes
  import opened Validation
  import opened Repository

  /** The `pagination` object of a list response. */
  datatype Pagination = Pagination(total: int, limit: int, offset: int, hasMore: bool)

  /** What a success response carries besides `success: true`. */
  datatype Payload =
    | One(data: Resource)
    | Page(items: seq<Resource>, pagination: Pagination)
    | Notice(message: string)

  /** The message of an error: a schema's first error, or a text of the
      controller's own. */
  datatype Reason = Schema(message: Message) | Stated(text: string)

  /** An error handed to the error middleware, with its status code. */
  datatype ApiError = ApiError(statusCode: int, message: Reason)

  /** `res.status(s).json({success: true, ...})`, or `next(error)`. */
  datatype Outcome = Respond(status: int, payload: Payload) | Next(error: ApiError)

  const InvalidId: string := "Invalid resource ID"
  const NotFound: string := "Resource not found"
  const Deleted: string := "Resource deleted successfully"

  /** `create`: 400 with the first validation message, or 201 with the
      stored row, whose status is the validated one (`active` when the
      body has none). */
  method Create(model: ResourceModel, body: Body, now: string) returns (out: Outcome)
    requires model.Valid()
    modifies model
    ensures model.Valid()
    ensures ValidateCreate(body).Failure? ==>
      && out == Next(ApiError(400, Schema(ValidateCreate(body).error)))
      && model.rows == old(model.rows) && model.nextId == old(model.nextId)
    ensures ValidateCreate(body).Success? ==>
      && out.Respond? && out.status == 201 && out.payload.One?
      && out.payload.data.id == old(model.nextId)
      && model.rows == old(model.rows)[out.payload.data.id := out.payload.data]
      && out.payload.data.name == ValidateCreate(body).value.name
      && out.payload.data.description == ValidateCreate(body).value.description
      && out.payload.data.category == ValidateCreate(body).value.category
      && Some(out.payload.data.status) == ValidateCreate(body).value.status
      && out.payload.data.createdAt == now && out.payload.data.updatedAt == now
  {
    var v := ValidateCreate(body);
    if v.Failure? {
      return Next(ApiError(400, Schema(v.error)));
    }
    var r := model.Create(v.value, now);
    out := Respond(201, One(r));
  }

  /** `getAll`: 400 with the first validation message, or 200 with one
      page of the selected rows, their number and the validated (defaulted)
      limit and offset. `hasMore` holds exactly when selected rows remain
      after this page. */
  method GetAll(model: ResourceModel, query: Query) returns (out: Outcome, ghost ordered: seq<Resource>)
    requires model.Valid()
    ensures ValidateFilters(query).Failure? ==> out == Next(ApiError(400, Schema(ValidateFilters(query).error)))
    ensures ValidateFilters(query).Success? ==>
      var f := ValidateFilters(query).value;
      && out.Respond? && out.status == 200 && out.payload.Page?
      && model.Listing(ordered, f)
      && NewestFirst(ordered)
      && out.payload.items == Window(ordered, f.limit, f.offset)
      && out.payload.pagination.total == |model.MatchingIds(f)|
      && out.payload.pagination.limit == f.limit.value
      && out.payload.pagination.offset == f.offset.value
      && (out.payload.pagination.hasMore <==>
            f.offset.value + |out.payload.items| < out.payload.pagination.total)
  {
    ordered := [];
    var v := ValidateFilters(query);
    if v.Failure? {
      out := Next(ApiError(400, Schema(v.error)));
      return;
    }
    var f := v.value;
    var resources;
    resources, ordered := model.FindAll(f);
    var total := model.Count(f);
    var limit := f.limit.value;
    var offset := f.offset.value;
    WindowLeavesMore(ordered, limit, offset);
    out := Respond(200, Page(resources, Pagination(total, limit, offset, offset + limit < total)));
  }

  /** `getById`: 400 for an id that is not a positive integer, 404 when no
      row has it, otherwise 200 with the row. */
  method GetById(model: ResourceModel, param: string) returns (out: Outcome)
    requires model.Valid()
    ensures ValidateId(param).None? ==> out == Next(ApiError(400, Stated(InvalidId)))
    ensures ValidateId(param).Some? && ValidateId(param).value !in model.rows ==>
      out == Next(ApiError(404, Stated(NotFound)))
    ensures ValidateId(param).Some? && ValidateId(param).value in model.rows ==>
      out == Respond(200, One(model.rows[ValidateId(param).value]))
  {
    var id := ValidateId(param);
    if id.None? {
      return Next(ApiError(400, Stated(InvalidId)));
    }
    var r := model.FindById(id.value);
    if r.None? {
      return Next(ApiError(404, Stated(NotFound)));
    }
    out := Respond(200, One(r.value));
  }

  /** `update`: the id is checked before the body, so a bad id wins; 404
      when no row has the id; otherwise 200 with the row as updated. A body
      that passes validation always supplies a field, so the row always
      gets the new updatedAt. */
  method Update(model: ResourceModel, param: string, body: Body, now: string) returns (out: Outcome)
    requires model.Valid()
    modifies model
    ensures model.Valid() && model.nextId == old(model.nextId)
    ensures ValidateId(param).None? ==>
      out == Next(ApiError(400, Stated(InvalidId))) && model.rows == old(model.rows)
    ensures ValidateId(param).Some? && ValidateUpdate(body).Failure? ==>
      out == Next(ApiError(400, Schema(ValidateUpdate(body).error))) && model.rows == old(model.rows)
    ensures (ValidateId(param).Some? && ValidateUpdate(body).Success? &&
             ValidateId(param).value !in old(model.rows)) ==>
      out == Next(ApiError(404, Stated(NotFound))) && model.rows == old(model.rows)
    ensures (ValidateId(param).Some? && ValidateUpdate(body).Success? &&
             ValidateId(param).value in old(model.rows)) ==>
      var id := ValidateId(param).value;
      var row := Apply(old(model.rows)[id], ValidateUpdate(body).value, now);
      && out == Respond(200, One(row))
      && model.rows == old(model.rows)[id := row]
      && row.updatedAt == now
  {
    var id := ValidateId(param);
    if id.None? {
      return Next(ApiError(400, Stated(InvalidId)));
    }
    var v := ValidateUpdate(body);
    if v.Failure? {
      return Next(ApiError(400, Schema(v.error)));
    }
    var r := model.Update(id.value, v.value, now);
    if r.None? {
      return Next(ApiError(404, Stated(NotFound)));
    }
    out := Respond(200, One(r.value));
  }

  /** `delete`: 400 for a bad id, 404 when nothing was deleted, otherwise
      200 with a message and no data. */
  method Delete(model: ResourceModel, param: string) returns (out: Outcome)
    requires model.Valid()
    modifies model
    ensures model.Valid() && model.nextId == old(model.nextId)
    ensures ValidateId(param).None? ==>
      out == Next(ApiError(400, Stated(InvalidId))) && model.rows == old(model.rows)
    ensures ValidateId(param).Some? && ValidateId(param).value !in old(model.rows) ==>
      out == Next(ApiError(404, Stated(NotFound))) && model.rows == old(model.rows)
    ensures ValidateId(param).Some? && ValidateId(param).value in old(model.rows) ==>
      && out == Respond(200, Notice(Deleted))
      && model.rows == old(model.rows) - {ValidateId(param).value}
  {
    var id := ValidateId(param);
    if id.None? {
      return Next(ApiError(400, Stated(InvalidId)));
    }
    var deleted := model.Delete(id.value);
    if !deleted {
      return Next(ApiError(404, Stated(NotFound)));
    }
    out := Respond(200, Notice(Deleted));
  }
}
