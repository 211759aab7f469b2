/** The login/registration decisions of the auth controller, over an
    abstract identity store and token minter. Each action returns the HTTP
    result together with the sequence of calls it made on its
    collaborators, so that what was consulted and what was minted can be
    stated. */
module AuthController {
  import opened Wrappers

  /** The fields of an account the controller reads or sets. */
  datatype ApplicationUser = ApplicationUser(id: string, userName: string, email: string)

  datatype IdentityError = IdentityError(code: string, description: string)

  /** What account creation reports: success, with the account as the store
      left it, or the store's list of errors. */
  datatype CreateOutcome = Created(user: ApplicationUser) | Failed(errors: seq<IdentityError>)

  datatype LoginDto = LoginDto(email: string, password: string)
  datatype RegisterDto = RegisterDto(email: string, password: string)

  /** The collaborators: the identity store (lookup, password check,
      creation, the user table) and the token minter. All are uninterpreted. */
  datatype Services = Services(
    findByEmail: string -> Option<ApplicationUser>,
    checkPassword: (ApplicationUser, string) -> bool,
    create: (ApplicationUser, string) -> CreateOutcome,
    users: seq<ApplicationUser>,
    generateToken: string -> string)

  /** One call made on a collaborator. */
  datatype Call =
    | FindByEmail(email: string)
    | CheckPassword(user: ApplicationUser, password: string)
    | Create(account: ApplicationUser, password: string)
    | GenerateToken(userId: string)
    | ListUsers

  /** The HTTP results the controller produces. */
  datatype ActionResult =
    | OkToken(token: string)                      // 200 with an AuthResponseDto
    | OkUsers(users: seq<ApplicationUser>)        // 200 with the user list
    | Unauthorized(message: string)               // 401
    | BadRequest(errors: seq<IdentityError>)      // 400

  datatype Handled = Handled(result: ActionResult, calls: seq<Call>)

  const InvalidCredentials: string := "Invalid credentials"

  /** True when some call minted a token. */
  predicate MintsToken(calls: seq<Call>) {
    exists i :: 0 <= i < |calls| && calls[i].GenerateToken?
  }

  /** True when the password was checked. */
  predicate ChecksPassword(calls: seq<Call>) {
    exists i :: 0 <= i < |calls| && calls[i].CheckPassword?
  }

  /** `Login`: look the account up by e-mail; only if one is found is the
      password checked; a token is minted for that account's id only when
      both succeed; every failure is the same 401. */
  function Login(svc: Services, model: LoginDto): (h: Handled)
    ensures |h.calls| > 0 && h.calls[0] == FindByEmail(model.email)
    ensures h.result.OkToken? <==>
      svc.findByEmail(model.email).Some? && svc.checkPassword(svc.findByEmail(model.email).value, model.password)
    ensures h.result.OkToken? ==> h.result.token == svc.generateToken(svc.findByEmail(model.email).value.id)
    ensures !h.result.OkToken? ==> h.result == Unauthorized(InvalidCredentials)
    ensures ChecksPassword(h.calls) <==> svc.findByEmail(model.email).Some?
    ensures MintsToken(h.calls) <==> h.result.OkToken?
    ensures h.result.OkToken? ==> h.calls[|h.calls| - 1] == GenerateToken(svc.findByEmail(model.email).value.id)
    ensures var found := svc.findByEmail(model.email);
      && |h.calls| == 1 + (if found.Some? then 1 else 0) + (if h.result.OkToken? then 1 else 0)
      && forall i :: 0 <= i < |h.calls| ==>
           && !h.calls[i].Create? && !h.calls[i].ListUsers?
           && (h.calls[i].FindByEmail? ==> h.calls[i].email == model.email)
           && (h.calls[i].CheckPassword? ==> found.Some? && h.calls[i] == CheckPassword(found.value, model.password))
           && (h.calls[i].GenerateToken? ==> found.Some? && h.calls[i].userId == found.value.id)
  {
    var user := svc.findByEmail(model.email);
    if user.None? then
      Handled(Unauthorized(InvalidCredentials), [FindByEmail(model.email)])
    else
      var checkCalls := [FindByEmail(model.email), CheckPassword(user.value, model.password)];
      if svc.checkPassword(user.value, model.password) then
        var token := svc.generateToken(user.value.id);
        var calls := checkCalls + [GenerateToken(user.value.id)];
        assert calls[1].CheckPassword? && calls[2].GenerateToken?;
        Handled(OkToken(token), calls)
      else
        assert checkCalls[1].CheckPassword?;
        Handled(Unauthorized(InvalidCredentials), checkCalls)
  }

  /** An unknown e-mail and a wrong password are indistinguishable to the
      caller: both give the same 401 with the same message. */
  lemma LoginFailuresIndistinguishable(svc1: Services, model1: LoginDto, svc2: Services, model2: LoginDto)
    requires svc1.findByEmail(model1.email).None?
    requires svc2.findByEmail(model2.email).Some?
    requires !svc2.checkPassword(svc2.findByEmail(model2.email).value, model2.password)
    ensures Login(svc1, model1).result == Login(svc2, model2).result == Unauthorized(InvalidCredentials)
  {
  }

  /** The `&&` in `Login` short-circuits: when no account is found, the
      outcome does not depend on the password checker at all. */
  lemma LoginIgnoresCheckerWhenUnknown(svc: Services, model: LoginDto, checker: (ApplicationUser, string) -> bool)
    requires svc.findByEmail(model.email).None?
    ensures Login(svc, model) == Login(svc.(checkPassword := checker), model)
  {
  }

  /** `Register`: build the account with user name and e-mail both set to
      the submitted e-mail (`newId` is the id its constructor generated),
      ask the store to create it, and mint a token for the created
      account's id on success; on failure pass the store's errors through
      unchanged. */
  function Register(svc: Services, model: RegisterDto, newId: string): (h: Handled)
    ensures |h.calls| > 0 && h.calls[0] == Create(ApplicationUser(newId, model.email, model.email), model.password)
    ensures h.calls[0].account.userName == h.calls[0].account.email == model.email
    ensures var outcome := svc.create(ApplicationUser(newId, model.email, model.email), model.password);
      && (h.result.OkToken? <==> outcome.Created?)
      && (outcome.Created? ==> h.result.token == svc.generateToken(outcome.user.id))
      && (outcome.Created? ==> h.calls[|h.calls| - 1] == GenerateToken(outcome.user.id))
      && (outcome.Failed? ==> h.result == BadRequest(outcome.errors))
    ensures h.result.OkToken? || h.result.BadRequest?
    ensures MintsToken(h.calls) <==> h.result.OkToken?
    ensures !ChecksPassword(h.calls)
    ensures var outcome := svc.create(ApplicationUser(newId, model.email, model.email), model.password);
      && |h.calls| == (if outcome.Created? then 2 else 1)
      && forall i :: 0 < i < |h.calls| ==> outcome.Created? && h.calls[i] == GenerateToken(outcome.user.id)
  {
    var user := ApplicationUser(newId, model.email, model.email);
    var createCall := Create(user, model.password);
    match svc.create(user, model.password)
    case Created(created) =>
      var calls := [createCall, GenerateToken(created.id)];
      assert calls[1].GenerateToken?;
      Handled(OkToken(svc.generateToken(created.id)), calls)
    case Failed(errors) =>
      Handled(BadRequest(errors), [createCall])
  }

  /** Registration errors reach the caller as the store reported them:
      same count, same codes, same order. */
  lemma RegisterErrorsVerbatim(svc: Services, model: RegisterDto, newId: string, errors: seq<IdentityError>)
    requires svc.create(ApplicationUser(newId, model.email, model.email), model.password) == Failed(errors)
    ensures var result := Register(svc, model, newId).result;
      && result.BadRequest?
      && |result.errors| == |errors|
      && forall i :: 0 <= i < |errors| ==> result.errors[i].code == errors[i].code
  {
  }

  /** A duplicate e-mail reported by the store gives exactly one error with
      code DuplicateUserName. */
  lemma RegisterDuplicateExample(svc: Services, model: RegisterDto, newId: string)
    requires svc.create(ApplicationUser(newId, model.email, model.email), model.password)
      == Failed([IdentityError("DuplicateUserName", "Username already exists")])
    ensures var result := Register(svc, model, newId).result;
      result.BadRequest? && |result.errors| == 1 && result.errors[0].code == "DuplicateUserName"
  {
  }

  /** `GetUsers`: every account in the user table, unfiltered and in
      table order; no token is minted and no credential is read. */
  function GetUsers(svc: Services): (h: Handled)
    ensures h.result.OkUsers?
    ensures |h.result.users| == |svc.users|
    ensures forall i :: 0 <= i < |svc.users| ==> h.result.users[i] == svc.users[i]
    ensures !MintsToken(h.calls) && !ChecksPassword(h.calls)
    ensures |h.calls| == 1 && forall i :: 0 <= i < |h.calls| ==> h.calls[i] == ListUsers
  {
    Handled(OkUsers(svc.users), [ListUsers])
  }

  /** The listing reads nothing but the user table: replacing every other
      collaborator leaves the result and the calls unchanged. */
  lemma GetUsersReadsOnlyTable(svc: Services, other: Services)
    requires other.users == svc.users
    ensures GetUsers(svc) == GetUsers(other)
  {
  }
}
