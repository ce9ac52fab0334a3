/** The token builder: a claim dictionary that `AddUsername`, `AddClaims` and
    `Build` fill in with `Add`, which refuses a key that is already present.
    Signing and serialisation are outside the model; a token is its issuer,
    audience, expiry and claims. */
module JwtBuilding {
  import opened Wrappers
  import opened Seqs
  import opened Domain
  import opened RightsService

  /** A claim value: a string, or the dictionary of one game's rights, right name
      to right description. */
  datatype ClaimValue = Text(text: string) | Rights(rights: map<string, string>)

  /** The claim key of the user name. */
  const UsernameClaim := "Username"

  /** The registered claim key of the token id. */
  const JtiClaim := "jti"

  /** The settings the builder reads once at construction. */
  datatype JwtSettings = JwtSettings(issuer: string, audience: string, expiryInMinutes: int)

  /** A built token, before signing. */
  datatype Token = Token(issuer: string, audience: string, expires: int, claims: map<string, ClaimValue>)

  /** An outcome together with the claims it leaves behind. */
  datatype ClaimsApplied = ClaimsApplied(result: Result<(), Failure>, claims: map<string, ClaimValue>)

  /** Every right carries its game. */
  predicate GamesLoaded(rights: seq<Right>) {
    forall r :: r in rights ==> r.game.Some?
  }

  /** The keys of `GroupBy(right => right.Game.Name)`: the distinct game names, in
      the order of their first right. */
  function GameNames(rights: seq<Right>): (r: seq<string>)
    requires GamesLoaded(rights)
    ensures forall i, j :: 0 <= i < j < |r| ==> r[i] != r[j]
    ensures forall n :: n in r <==> exists x :: x in rights && x.game.value.name == n
  {
    if rights == [] then []
    else
      var n := |rights| - 1;
      assert rights == rights[..n] + [rights[n]];
      var names := GameNames(rights[..n]);
      var name := rights[n].game.value.name;
      if name in names then names else names + [name]
  }

  /** The group of one game name: its rights, in input order. */
  function GroupOf(rights: seq<Right>, gameName: string): (r: seq<Right>)
    ensures forall x :: x in r <==> x in rights && x.game.Some? && x.game.value.name == gameName
  {
    Filter(rights, (x: Right) => x.game.Some? && x.game.value.name == gameName)
  }

  /** `ToDictionary(right => right.Name, right => right.Description)`: absent as
      soon as a name repeats. */
  function ToDictionary(group: seq<Right>): (r: Option<map<string, string>>)
    ensures r.Some? <==> UniqueNames(group)
    ensures r.Some? ==> forall n :: n in r.value <==> exists x :: x in group && x.name == n
    ensures r.Some? ==> forall x :: x in group ==> r.value[x.name] == x.description
  {
    if group == [] then Some(map[])
    else
      var n := |group| - 1;
      var last := group[n];
      UniqueNamesOfSnoc(group);
      assert group == group[..n] + [last];
      match ToDictionary(group[..n])
      case None => None
      case Some(m) =>
        if last.name in m then None
        else Some(m[last.name := last.description])
  }

  /** Names stay unique when a right is appended exactly when its name is new. */
  lemma UniqueNamesOfSnoc(group: seq<Right>)
    requires group != []
    ensures var n := |group| - 1;
      UniqueNames(group) <==> UniqueNames(group[..n]) && forall x :: x in group[..n] ==> x.name != group[n].name
  {
    var n := |group| - 1;
    if UniqueNames(group) {
      forall x | x in group[..n]
        ensures x.name != group[n].name
      {
        var i :| 0 <= i < n && group[..n][i] == x;
        assert group[i].name != group[n].name;
      }
    }
    if UniqueNames(group[..n]) && forall x :: x in group[..n] ==> x.name != group[n].name {
      forall i, j | 0 <= i < j < |group|
        ensures group[i].name != group[j].name
      {
        if j == n {
          assert group[..n][i] in group[..n];
        } else {
          assert group[..n][i] == group[i] && group[..n][j] == group[j];
        }
      }
    }
  }

  /** The loop over the groups, from the group named `names[0]` on: each adds its
      dictionary under its game name; a repeated right name or a game name that
      is already a claim stops the loop, leaving the earlier groups added. */
  function AddGroups(claims: map<string, ClaimValue>, rights: seq<Right>, names: seq<string>): ClaimsApplied
    decreases |names|
  {
    if names == [] then ClaimsApplied(Success(()), claims)
    else match ToDictionary(GroupOf(rights, names[0]))
      case None => ClaimsApplied(Failure(DuplicateKey), claims)
      case Some(dictionary) =>
        if names[0] in claims then ClaimsApplied(Failure(DuplicateKey), claims)
        else AddGroups(claims[names[0] := Rights(dictionary)], rights, names[1..])
  }

  /** `AddClaims`: an empty list fails at `Last()` before any change. */
  function AddClaimsSpec(claims: map<string, ClaimValue>, rights: seq<Right>): ClaimsApplied
    requires GamesLoaded(rights)
  {
    if |rights| == 0 then ClaimsApplied(Failure(NoElements), claims)
    else AddGroups(claims, rights, GameNames(rights))
  }

  /** `Add(key, value)` on the claim dictionary. */
  function AddClaim(claims: map<string, ClaimValue>, key: string, value: ClaimValue): (r: ClaimsApplied)
    ensures r.result.Success? <==> key !in claims
    ensures r.result.Success? ==> r.claims.Keys == claims.Keys + {key} && r.claims[key] == value
    ensures r.result.Success? ==> forall k :: k in claims ==> r.claims[k] == claims[k]
    ensures r.result.Failure? ==> r == ClaimsApplied(Failure(DuplicateKey), claims)
  {
    if key in claims then ClaimsApplied(Failure(DuplicateKey), claims)
    else ClaimsApplied(Success(()), claims[key := value])
  }

  class JwtBuilder {
    const issuer: string
    const audience: string
    const expiryInMinutes: int
    var claims: map<string, ClaimValue>
    var expires: Option<int>

    /** A new builder: issuer and audience from the settings, no claim, no expiry. */
    constructor (settings: JwtSettings)
      ensures issuer == settings.issuer && audience == settings.audience
      ensures expiryInMinutes == settings.expiryInMinutes
      ensures claims == map[] && expires == None
    {
      issuer := settings.issuer;
      audience := settings.audience;
      expiryInMinutes := settings.expiryInMinutes;
      claims := map[];
      expires := None;
    }

    /** `AddUsername`: adds `"Username"` mapped to `username`. */
    method AddUsername(username: string) returns (r: Result<(), Failure>)
      modifies this
      ensures expires == old(expires)
      ensures ClaimsApplied(r, claims) == AddClaim(old(claims), UsernameClaim, Text(username))
    {
      if UsernameClaim in claims {
        return Failure(DuplicateKey);
      }
      claims := claims[UsernameClaim := Text(username)];
      return Success(());
    }

    /** `AddClaims`: one claim per game of the rights. */
    method AddClaims(rights: seq<Right>) returns (r: Result<(), Failure>)
      requires GamesLoaded(rights)
      modifies this
      ensures expires == old(expires)
      ensures ClaimsApplied(r, claims) == AddClaimsSpec(old(claims), rights)
    {
      if |rights| == 0 {
        return Failure(NoElements);
      }
      var rightsGroups := GameNames(rights);
      for i := 0 to |rightsGroups|
        invariant expires == old(expires)
        invariant AddGroups(old(claims), rights, rightsGroups) == AddGroups(claims, rights, rightsGroups[i..])
      {
        assert rightsGroups[i..][1..] == rightsGroups[i + 1..];
        var rightsDictionary := ToDictionary(GroupOf(rights, rightsGroups[i]));
        if rightsDictionary.None? {
          return Failure(DuplicateKey);
        }
        if rightsGroups[i] in claims {
          return Failure(DuplicateKey);
        }
        claims := claims[rightsGroups[i] := Rights(rightsDictionary.value)];
      }
      return Success(());
    }

    /** `Build`: the expiry becomes `now` plus the lifetime, then the token id
        `jti` is added; the token carries the claims. Times are in minutes. */
    method Build(now: int, jti: string) returns (r: Result<Token, Failure>)
      modifies this
      ensures expires == Some(now + expiryInMinutes)
      ensures ClaimsApplied(if r.Success? then Success(()) else Failure(r.error), claims)
        == AddClaim(old(claims), JtiClaim, Text(jti))
      ensures r.Success? ==> r.value == Token(issuer, audience, now + expiryInMinutes, claims)
    {
      expires := Some(now + expiryInMinutes);
      if JtiClaim in claims {
        return Failure(DuplicateKey);
      }
      claims := claims[JtiClaim := Text(jti)];
      return Success(Token(issuer, audience, now + expiryInMinutes, claims));
    }
  }

  // ---- properties of the claims ----

  /** The group loop succeeds exactly when every group's right names are unique
      and no game name is a claim yet; it fails only on a duplicate key. */
  lemma {:induction false} AddGroupsSucceeds(claims: map<string, ClaimValue>, rights: seq<Right>, names: seq<string>)
    requires forall i, j :: 0 <= i < j < |names| ==> names[i] != names[j]
    ensures AddGroups(claims, rights, names).result.Success?
      <==> forall n :: n in names ==> n !in claims && UniqueNames(GroupOf(rights, n))
    ensures AddGroups(claims, rights, names).result.Failure? ==> AddGroups(claims, rights, names).result.error == DuplicateKey
    decreases |names|
  {
    if names != [] {
      var name, rest := names[0], names[1..];
      assert forall n :: n in names <==> n == name || n in rest;
      match ToDictionary(GroupOf(rights, name))
      case None =>
      case Some(dictionary) =>
        if name !in claims {
          AddGroupsSucceeds(claims[name := Rights(dictionary)], rights, rest);
        }
    }
  }

  /** The group loop keeps every claim that was there, whether it fails or not,
      and adds claims only under the game names. */
  lemma {:induction false} AddGroupsKeeps(claims: map<string, ClaimValue>, rights: seq<Right>, names: seq<string>)
    ensures forall k :: k in claims ==>
      (k in AddGroups(claims, rights, names).claims && AddGroups(claims, rights, names).claims[k] == claims[k])
    ensures AddGroups(claims, rights, names).claims.Keys <= claims.Keys + set n | n in names
    decreases |names|
  {
    if names != [] {
      var name, rest := names[0], names[1..];
      assert forall n :: n in names <==> n == name || n in rest;
      match ToDictionary(GroupOf(rights, name))
      case None =>
      case Some(dictionary) =>
        if name !in claims {
          AddGroupsKeeps(claims[name := Rights(dictionary)], rights, rest);
        }
    }
  }

  /** A successful group loop adds, under every game name, that game's dictionary. */
  lemma {:induction false} AddGroupsAdds(claims: map<string, ClaimValue>, rights: seq<Right>, names: seq<string>)
    requires AddGroups(claims, rights, names).result.Success?
    ensures AddGroups(claims, rights, names).claims.Keys == claims.Keys + set n | n in names
    ensures forall n :: n in names ==>
      (ToDictionary(GroupOf(rights, n)).Some?
       && AddGroups(claims, rights, names).claims[n] == Rights(ToDictionary(GroupOf(rights, n)).value))
    decreases |names|
  {
    if names != [] {
      var name, rest := names[0], names[1..];
      assert forall n :: n in names <==> n == name || n in rest;
      var dictionary := ToDictionary(GroupOf(rights, name)).value;
      var next := claims[name := Rights(dictionary)];
      AddGroupsAdds(next, rights, rest);
      AddGroupsKeeps(next, rights, rest);
    }
  }

  /** `AddClaims` succeeds exactly on a non-empty list whose game names are not
      claims yet and whose rights of one game have distinct names; otherwise it
      fails on the empty list or on a duplicate key. */
  lemma AddClaimsSucceeds(claims: map<string, ClaimValue>, rights: seq<Right>)
    requires GamesLoaded(rights)
    ensures AddClaimsSpec(claims, rights).result.Success? <==>
      (|rights| > 0
       && forall r :: r in rights ==> r.game.value.name !in claims && UniqueNames(GroupOf(rights, r.game.value.name)))
    ensures AddClaimsSpec(claims, rights).result.Failure? ==>
      AddClaimsSpec(claims, rights).result.error == if |rights| == 0 then NoElements else DuplicateKey
  {
    if |rights| > 0 {
      AddGroupsSucceeds(claims, rights, GameNames(rights));
    }
  }

  /** `AddClaims` keeps the claims that were there, and on success adds exactly
      the game names of the rights. */
  lemma AddClaimsKeys(claims: map<string, ClaimValue>, rights: seq<Right>)
    requires GamesLoaded(rights)
    ensures forall k :: k in claims ==>
      (k in AddClaimsSpec(claims, rights).claims && AddClaimsSpec(claims, rights).claims[k] == claims[k])
    ensures AddClaimsSpec(claims, rights).result.Success? ==>
      AddClaimsSpec(claims, rights).claims.Keys == claims.Keys + set r | r in rights :: r.game.value.name
  {
    if |rights| > 0 {
      var names := GameNames(rights);
      AddGroupsKeeps(claims, rights, names);
      assert (set n | n in names) == (set r | r in rights :: r.game.value.name);
      if AddGroups(claims, rights, names).result.Success? {
        AddGroupsAdds(claims, rights, names);
      }
    }
  }

  /** After a successful `AddClaims`, the claim of a right's game maps the right's
      name to its description, and its keys are the names of that game's rights. */
  lemma ClaimOfRight(claims: map<string, ClaimValue>, rights: seq<Right>, r: Right)
    requires GamesLoaded(rights) && r in rights
    requires AddClaimsSpec(claims, rights).result.Success?
    ensures r.game.value.name in AddClaimsSpec(claims, rights).claims
    ensures var claim := AddClaimsSpec(claims, rights).claims[r.game.value.name];
      claim.Rights?
      && (forall n :: n in claim.rights <==> exists x :: x in rights && x.game.value.name == r.game.value.name && x.name == n)
      && r.name in claim.rights && claim.rights[r.name] == r.description
  {
    var names := GameNames(rights);
    AddGroupsAdds(claims, rights, names);
    assert r.game.value.name in names;
    assert r in GroupOf(rights, r.game.value.name);
  }

  /** Two rights of one game with the same name make `AddClaims` fail. */
  lemma RepeatedNameInGameFails(claims: map<string, ClaimValue>, rights: seq<Right>, i: nat, j: nat)
    requires GamesLoaded(rights)
    requires i < j < |rights| && rights[i].name == rights[j].name
    requires rights[i].game.value.name == rights[j].game.value.name
    ensures AddClaimsSpec(claims, rights).result == Failure(DuplicateKey)
  {
    var name := rights[i].game.value.name;
    assert !UniqueNames(GroupOf(rights, name)) by {
      FilterKeepsTwo(rights, (x: Right) => x.game.Some? && x.game.value.name == name, i, j);
      var group := GroupOf(rights, name);
      var p, q :| 0 <= p < q < |group| && group[p] == rights[i] && group[q] == rights[j];
      assert group[p].name == group[q].name;
    }
    assert rights[i] in rights;
    AddClaimsSucceeds(claims, rights);
  }

  /** A game named `"Username"` cannot be added once the user name is a claim. */
  lemma GameNamedUsernameFails(claims: map<string, ClaimValue>, rights: seq<Right>)
    requires GamesLoaded(rights) && UsernameClaim in claims
    requires exists r :: r in rights && r.game.value.name == UsernameClaim
    ensures AddClaimsSpec(claims, rights).result == Failure(DuplicateKey)
  {
    AddClaimsSucceeds(claims, rights);
  }

  /** Adding a second user name, or building a second time, fails on the key that
      is already there and changes no claim. */
  lemma SecondAddFails(claims: map<string, ClaimValue>, username: string, other: string, jti: string, otherJti: string)
    ensures var first := AddClaim(claims, UsernameClaim, Text(username));
      first.result.Success? ==> AddClaim(first.claims, UsernameClaim, Text(other)) == ClaimsApplied(Failure(DuplicateKey), first.claims)
    ensures var first := AddClaim(claims, JtiClaim, Text(jti));
      first.result.Success? ==> AddClaim(first.claims, JtiClaim, Text(otherJti)) == ClaimsApplied(Failure(DuplicateKey), first.claims)
  {
  }
}
