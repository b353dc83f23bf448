/** The API's endpoints as transitions over the product store: each request
    yields a response and the store that follows it. Authorisation comes
    first, as in the middleware pipeline: a protected endpoint with no
    accepted bearer token answers 401 before its handler runs. */
module Api {
  import opened Optional
  import opened Text
  import opened Tokens
  import opened Catalog

  const StatusOk: int := 200
  const StatusCreated: int := 201
  const StatusNoContent: int := 204
  const StatusBadRequest: int := 400
  const StatusUnauthorized: int := 401
  const StatusNotFound: int := 404
  const StatusServerError: int := 500

  const NameRequiredMessage: string := "Name is required."

  datatype Body =
    | NoBody
    | HealthBody(ok: bool)
    | AccessToken(token: Token)
    | ProductList(items: seq<Entry>)
    /** The `Location` is `/api/products/{id}`; the body is the new product. */
    | CreatedProduct(location: Guid, product: Product)
    | ErrorBody(error: string)

  datatype Response = Response(status: int, body: Body)

  /** The body of `POST /api/products`; the name may be missing (null). */
  datatype ProductCreateDto = ProductCreateDto(name: Option<string>, price: real, stock: Int32)

  datatype Request =
    | GetHealth
    | PostLogin(login: LoginRequest)
    | GetProducts
    | PostProduct(dto: ProductCreateDto)
    | DeleteProduct(id: Guid)

  datatype Transition = Transition(response: Response, store: Store)

  /** The product endpoints carry `RequireAuthorization`. */
  predicate RequiresAuthorization(req: Request) {
    req.GetProducts? || req.PostProduct? || req.DeleteProduct?
  }

  /** A bearer token was presented and validation accepts it. */
  predicate Authorized(cfg: Config, bearer: Option<Token>, now: int) {
    bearer.Some? && Accepts(cfg, bearer.value, now)
  }

  /** `POST /api/auth/login`: 200 with a token for the admin, 401 otherwise. */
  function HandleLogin(cfg: Config, req: LoginRequest, now: int): (resp: Response)
    ensures resp.status == StatusOk <==> IsAdmin(req)
    ensures resp.status == StatusOk ==>
      resp.body.AccessToken? && Some(resp.body.token) == Issue(cfg, req, now)
    ensures resp.status != StatusOk ==> resp == Response(StatusUnauthorized, NoBody)
  {
    match Issue(cfg, req, now)
    case None => Response(StatusUnauthorized, NoBody)
    case Some(t) => Response(StatusOk, AccessToken(t))
  }

  /** `POST /api/products` once authorised. A blank name is refused with
      400; otherwise the trimmed name and the unchecked price and stock are
      stored under the fresh id `newId`, created at `now`. `newId` stands
      for the id the product model generates; should it collide with a
      stored id, saving fails and the request ends in a server error. */
  function HandleCreate(store: Store, dto: ProductCreateDto, newId: Guid, now: Instant): (t: Transition)
    ensures IsNullOrWhiteSpace(dto.name) ==>
      t == Transition(Response(StatusBadRequest, ErrorBody(NameRequiredMessage)), store)
    ensures t.response.status == StatusCreated <==> !IsNullOrWhiteSpace(dto.name) && newId !in store
    ensures t.response.status != StatusCreated ==> t.store == store
    ensures !IsNullOrWhiteSpace(dto.name) && newId in store ==>
      t == Transition(Response(StatusServerError, NoBody), store)
    ensures t.response.status == StatusCreated ==>
      && newId !in store
      && t.store.Keys == store.Keys + {newId}
      && (forall k :: k in store ==> t.store[k] == store[k])
      && |t.store| == |store| + 1
      && StrippedTo(DotNet, dto.name.value, t.store[newId].name)
      && t.store[newId].name != []
      && t.store[newId].price == dto.price
      && t.store[newId].stock == dto.stock
      && t.store[newId].createdAt == now
      && t.response.body == CreatedProduct(newId, t.store[newId])
  {
    if IsNullOrWhiteSpace(dto.name) then
      Transition(Response(StatusBadRequest, ErrorBody(NameRequiredMessage)), store)
    else if newId in store then
      Transition(Response(StatusServerError, NoBody), store)
    else
      var p := Product(Trim(DotNet, dto.name.value), dto.price, dto.stock, now);
      Transition(Response(StatusCreated, CreatedProduct(newId, p)), Insert(store, newId, p))
  }

  /** `DELETE /api/products/{id}` once authorised: 204 and the product
      gone, or 404 and nothing changed. */
  function HandleDelete(store: Store, id: Guid): (t: Transition)
    ensures t.response.status == StatusNoContent <==> id in store
    ensures id in store ==>
      && t.response == Response(StatusNoContent, NoBody)
      && t.store.Keys == store.Keys - {id}
      && (forall k :: k in t.store ==> t.store[k] == store[k])
      && |t.store| == |store| - 1
    ensures id !in store ==> t == Transition(Response(StatusNotFound, NoBody), store)
  {
    if id !in store then
      Transition(Response(StatusNotFound, NoBody), store)
    else
      Transition(Response(StatusNoContent, NoBody), Remove(store, id))
  }

  /** One request against the store. `bearer` is the token presented, if
      any; `now` is the server clock; `newId` is the id a new product would
      receive. */
  method Serve(cfg: Config, store: Store, req: Request, bearer: Option<Token>, now: Instant, newId: Guid)
    returns (resp: Response, store': Store)
    ensures RequiresAuthorization(req) && !Authorized(cfg, bearer, now) ==>
      resp == Response(StatusUnauthorized, NoBody) && store' == store
    ensures store' != store ==>
      Authorized(cfg, bearer, now) && (req.PostProduct? || req.DeleteProduct?)
    ensures req.GetHealth? ==> resp == Response(StatusOk, HealthBody(true)) && store' == store
    ensures req.PostLogin? ==> resp == HandleLogin(cfg, req.login, now) && store' == store
    ensures req.GetProducts? && Authorized(cfg, bearer, now) ==>
      && store' == store
      && resp.status == StatusOk
      && resp.body.ProductList?
      && Enumerates(resp.body.items, store)
      && NewestFirst(resp.body.items)
    ensures req.PostProduct? && Authorized(cfg, bearer, now) ==>
      Transition(resp, store') == HandleCreate(store, req.dto, newId, now)
    ensures req.DeleteProduct? && Authorized(cfg, bearer, now) ==>
      Transition(resp, store') == HandleDelete(store, req.id)
  {
    store' := store;
    if req.GetHealth? {
      resp := Response(StatusOk, HealthBody(true));
    } else if req.PostLogin? {
      resp := HandleLogin(cfg, req.login, now);
    } else if !Authorized(cfg, bearer, now) {
      resp := Response(StatusUnauthorized, NoBody);
    } else {
      match req
      case GetProducts =>
        var items := ListProducts(store);
        resp := Response(StatusOk, ProductList(items));
      case PostProduct(dto) =>
        var t := HandleCreate(store, dto, newId, now);
        resp, store' := t.response, t.store;
      case DeleteProduct(id) =>
        var t := HandleDelete(store, id);
        resp, store' := t.response, t.store;
    }
  }

  /** Deleting the same id twice: the second attempt is a 404. */
  lemma SecondDeleteNotFound(store: Store, id: Guid)
    ensures HandleDelete(HandleDelete(store, id).store, id).response.status == StatusNotFound
  {
  }

  /** Deleting a product just created undoes the creation. */
  lemma DeleteUndoesCreate(store: Store, dto: ProductCreateDto, newId: Guid, now: Instant)
    requires HandleCreate(store, dto, newId, now).response.status == StatusCreated
    ensures HandleDelete(HandleCreate(store, dto, newId, now).store, newId) ==
      Transition(Response(StatusNoContent, NoBody), store)
  {
    var created := HandleCreate(store, dto, newId, now).store;
    assert created - {newId} == store;
  }

  /** Creating leaves every stored product as it was, and a product created
      after every stored one is listed first. */
  lemma CreatedListedFirst(store: Store, dto: ProductCreateDto, newId: Guid, now: Instant, items: seq<Entry>)
    requires HandleCreate(store, dto, newId, now).response.status == StatusCreated
    requires forall k :: k in store ==> store[k].createdAt < now
    requires Enumerates(items, HandleCreate(store, dto, newId, now).store)
    requires NewestFirst(items)
    ensures |items| == |store| + 1
    ensures items[0].id == newId && items[0].product.createdAt == now
  {
    var t := HandleCreate(store, dto, newId, now);
    EnumerationSize(items, t.store);
    NewestListedFirst(items, t.store, newId);
  }

  /** The server copies price and stock unchecked: a negative price or
      stock is stored as given. */
  lemma NegativeValuesStored(store: Store, name: string, newId: Guid, now: Instant)
    requires Trim(DotNet, name) != [] && newId !in store
    ensures var t := HandleCreate(store, ProductCreateDto(Some(name), -1.0, -1), newId, now);
      t.response.status == StatusCreated && t.store[newId].price == -1.0 && t.store[newId].stock == -1
  {
  }
}
