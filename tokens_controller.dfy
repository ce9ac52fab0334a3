/** The token endpoint: find the password by its encrypted value, check that it
    belongs to the named user and that the user has rights, then build a token
    with the user name and one claim per game of the user's rights. */
module TokensController {
  import opened Wrappers
  import opened Domain
  import opened RightsService
  import opened JwtBuilding

  /** A user as loaded with its password: the nickname and the granted rights
      (absent when none were loaded), each with its game. */
  datatype User = User(nickname: string, userRights: Option<seq<Right>>)

  /** A stored password with its owner. */
  datatype Password = Password(encryptedValue: string, user: User)

  /** The body of the token request. */
  datatype LoginDto = LoginDto(nickname: string, encryptedPassword: string)

  /** The checks of `CreateAsync`, before any token work. */
  datatype Decision = PasswordNotFound | WrongUser | NoRights | Issue(username: string, rights: seq<Right>)

  /** The response of `CreateAsync`; a failure inside the builder surfaces as an
      unhandled exception. */
  datatype Response = NotFoundResult | UnauthorizedResult | ForbidResult | OkResult(token: Token) | Thrown(error: Failure)

  /** Not found without a password; unauthorized when the owner's nickname is not
      exactly the posted one; forbidden without rights; otherwise a token for the
      stored nickname and the user's rights. */
  function Decide(password: Option<Password>, login: LoginDto): Decision {
    match password
    case None => PasswordNotFound
    case Some(p) =>
      if p.user.nickname != login.nickname then WrongUser
      else if p.user.userRights.None? || |p.user.userRights.value| == 0 then NoRights
      else Issue(p.user.nickname, p.user.userRights.value)
  }

  /** What the endpoint leaves behind: the response, the builder's claims, and
      whether `Build` ran (it sets the expiry before it adds the token id). */
  datatype Run = Run(response: Response, claims: map<string, ClaimValue>, built: bool)

  /** The builder chain `AddUsername(username).AddClaims(rights).Build()` on a
      builder whose claims are `claims`: the first failing step throws, leaving
      the claims the earlier steps added. */
  function TokenRun(claims: map<string, ClaimValue>, settings: JwtSettings, username: string, rights: seq<Right>,
                    now: int, jti: string): Run
    requires GamesLoaded(rights)
  {
    var named := AddClaim(claims, UsernameClaim, Text(username));
    if named.result.Failure? then Run(Thrown(named.result.error), named.claims, false)
    else
      var claimed := AddClaimsSpec(named.claims, rights);
      if claimed.result.Failure? then Run(Thrown(claimed.result.error), claimed.claims, false)
      else
        var built := AddClaim(claimed.claims, JtiClaim, Text(jti));
        if built.result.Failure? then Run(Thrown(built.result.error), built.claims, true)
        else Run(OkResult(Token(settings.issuer, settings.audience, now + settings.expiryInMinutes, built.claims)), built.claims, true)
  }

  /** The rights of a found user carry their games. */
  predicate RightsLoaded(password: Option<Password>) {
    password.Some? && password.value.user.userRights.Some? ==> GamesLoaded(password.value.user.userRights.value)
  }

  /** `CreateAsync` on the outcome of `Decide`: the checks that fail leave the
      builder untouched. */
  function CreateRun(claims: map<string, ClaimValue>, settings: JwtSettings, password: Option<Password>,
                     login: LoginDto, now: int, jti: string): Run
    requires RightsLoaded(password)
  {
    match Decide(password, login)
    case PasswordNotFound => Run(NotFoundResult, claims, false)
    case WrongUser => Run(UnauthorizedResult, claims, false)
    case NoRights => Run(ForbidResult, claims, false)
    case Issue(username, rights) => TokenRun(claims, settings, username, rights, now, jti)
  }

  /** The response of `CreateAsync`. */
  function CreateSpec(claims: map<string, ClaimValue>, settings: JwtSettings, password: Option<Password>,
                      login: LoginDto, now: int, jti: string): Response
    requires RightsLoaded(password)
  {
    CreateRun(claims, settings, password, login, now, jti).response
  }

  /** `CreateAsync`: `password` is what the passwords service finds for the
      encrypted value, `now` the clock in minutes and `jti` the fresh token id. */
  method Create(builder: JwtBuilder, password: Option<Password>, login: LoginDto, now: int, jti: string)
    returns (response: Response)
    requires RightsLoaded(password)
    modifies builder
    ensures var run := CreateRun(old(builder.claims), JwtSettings(builder.issuer, builder.audience, builder.expiryInMinutes),
                                 password, login, now, jti);
      response == run.response && builder.claims == run.claims
      && builder.expires == if run.built then Some(now + builder.expiryInMinutes) else old(builder.expires)
  {
    if password.None? {
      return NotFoundResult;
    }
    var user := password.value.user;
    if user.nickname != login.nickname {
      return UnauthorizedResult;
    }
    if user.userRights.None? || |user.userRights.value| == 0 {
      return ForbidResult;
    }
    var userRights := user.userRights.value;
    var named := builder.AddUsername(user.nickname);
    if named.Failure? {
      return Thrown(named.error);
    }
    var claimed := builder.AddClaims(userRights);
    if claimed.Failure? {
      return Thrown(claimed.error);
    }
    var token := builder.Build(now, jti);
    if token.Failure? {
      return Thrown(token.error);
    }
    return OkResult(token.value);
  }

  // ---- properties of the endpoint ----

  /** The checks run in the order password, nickname, rights: each outcome
      happens exactly under its own condition and the failure of every earlier
      check. */
  lemma CreateOutcomes(claims: map<string, ClaimValue>, settings: JwtSettings, password: Option<Password>,
                       login: LoginDto, now: int, jti: string)
    requires RightsLoaded(password)
    ensures CreateSpec(claims, settings, password, login, now, jti) == NotFoundResult <==> password.None?
    ensures CreateSpec(claims, settings, password, login, now, jti) == UnauthorizedResult
      <==> password.Some? && password.value.user.nickname != login.nickname
    ensures CreateSpec(claims, settings, password, login, now, jti) == ForbidResult
      <==> (password.Some? && password.value.user.nickname == login.nickname
            && (password.value.user.userRights.None? || |password.value.user.userRights.value| == 0))
    ensures CreateSpec(claims, settings, password, login, now, jti).OkResult?
      ==> password.Some? && password.value.user.nickname == login.nickname
          && password.value.user.userRights.Some? && |password.value.user.userRights.value| > 0
  {
    match Decide(password, login)
    case Issue(username, rights) =>
      var r := TokenRun(claims, settings, username, rights, now, jti).response;
      assert !r.NotFoundResult? && !r.UnauthorizedResult? && !r.ForbidResult?;
    case _ =>
  }

  /** A token issued by a fresh builder carries the stored nickname as the user
      name, the fresh token id, the expiry `now` plus the lifetime, and for every
      right of the user a claim under its game's name that maps the right's name
      to its description. */
  lemma IssuedTokenClaims(settings: JwtSettings, password: Option<Password>, login: LoginDto, now: int, jti: string)
    requires RightsLoaded(password)
    requires CreateSpec(map[], settings, password, login, now, jti).OkResult?
    ensures var token := CreateSpec(map[], settings, password, login, now, jti).token;
      var user := password.value.user;
      token.issuer == settings.issuer && token.audience == settings.audience
      && token.expires == now + settings.expiryInMinutes
      && UsernameClaim in token.claims && token.claims[UsernameClaim] == Text(user.nickname)
      && JtiClaim in token.claims && token.claims[JtiClaim] == Text(jti)
      && forall r :: r in user.userRights.value ==>
           r.game.value.name in token.claims && token.claims[r.game.value.name].Rights?
           && r.name in token.claims[r.game.value.name].rights
           && token.claims[r.game.value.name].rights[r.name] == r.description
  {
    var user := password.value.user;
    var rights := user.userRights.value;
    var named := AddClaim(map[], UsernameClaim, Text(user.nickname));
    var claimed := AddClaimsSpec(named.claims, rights);
    AddClaimsKeys(named.claims, rights);
    forall r | r in rights
      ensures r.game.value.name in claimed.claims && claimed.claims[r.game.value.name].Rights?
      ensures r.name in claimed.claims[r.game.value.name].rights
      ensures claimed.claims[r.game.value.name].rights[r.name] == r.description
    {
      ClaimOfRight(named.claims, rights, r);
    }
  }

  /** On a fresh builder, a user with rights is refused a token, by an exception,
      exactly when one of their games is named like the user-name claim or the
      token-id claim, or two of their rights of one game share a name. */
  lemma FreshBuilderFailures(settings: JwtSettings, password: Option<Password>, login: LoginDto, now: int, jti: string)
    requires RightsLoaded(password)
    requires Decide(password, login).Issue?
    ensures var rights := password.value.user.userRights.value;
      CreateSpec(map[], settings, password, login, now, jti).Thrown?
      <==> exists r :: r in rights
             && (r.game.value.name == UsernameClaim || r.game.value.name == JtiClaim
                 || !UniqueNames(GroupOf(rights, r.game.value.name)))
    ensures CreateSpec(map[], settings, password, login, now, jti).Thrown?
      ==> CreateSpec(map[], settings, password, login, now, jti).error == DuplicateKey
  {
    var user := password.value.user;
    var rights := user.userRights.value;
    var named := AddClaim(map[], UsernameClaim, Text(user.nickname));
    AddClaimsSucceeds(named.claims, rights);
    AddClaimsKeys(named.claims, rights);
    var claimed := AddClaimsSpec(named.claims, rights);
    if claimed.result.Success? {
      if JtiClaim in claimed.claims {
        assert JtiClaim in set r | r in rights :: r.game.value.name;
      }
    }
  }

  /** The nickname check is exact: a nickname that differs only in case is
      unauthorized. */
  lemma NicknameIsCaseSensitive(settings: JwtSettings, rights: seq<Right>, now: int, jti: string)
    requires GamesLoaded(rights)
    ensures var user := User("Admin", Some(rights));
      CreateSpec(map[], settings, Some(Password("secret", user)), LoginDto("admin", "secret"), now, jti) == UnauthorizedResult
  {
    assert "Admin"[0] != "admin"[0];
  }

  /** What the builder holds after the endpoint: a refused request leaves it
      untouched; every claim it had survives; an issued token carries exactly
      the builder's claims, and the expiry is set exactly when the user name and
      the rights' claims were added. */
  lemma CreateLeavesBuilder(claims: map<string, ClaimValue>, settings: JwtSettings, password: Option<Password>,
                            login: LoginDto, now: int, jti: string)
    requires RightsLoaded(password)
    ensures var run := CreateRun(claims, settings, password, login, now, jti);
      (!Decide(password, login).Issue? ==> run.claims == claims && !run.built)
      && (forall k :: k in claims ==> k in run.claims && run.claims[k] == claims[k])
      && (run.response.OkResult? ==> run.built && run.response.token.claims == run.claims)
      && (run.built <==> Decide(password, login).Issue?
                         && UsernameClaim !in claims
                         && AddClaimsSpec(claims[UsernameClaim := Text(Decide(password, login).username)],
                                          Decide(password, login).rights).result.Success?)
  {
    match Decide(password, login)
    case Issue(username, rights) =>
      var named := AddClaim(claims, UsernameClaim, Text(username));
      if named.result.Success? {
        AddClaimsKeys(named.claims, rights);
      }
    case _ =>
  }
}
