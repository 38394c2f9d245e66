/** The scene routes: the table-driven unlock progression run on every save,
    the create handler's response, and the update and delete handlers with
    their validation, "not found" and ownership checks.

    The database is a map from scene id to scene; the authenticated user is
    given as a value (the JWT middleware that finds it is not modelled).  A
    handler's outcome is its HTTP status together with the resulting store;
    response envelopes other than the unlock lists are left out. */
module SceneRoutes {
  import opened Wrappers
  import opened Strings
  import opened Sequences
  import opened JsValues
  import opened UserModel
  import opened SceneSchema

  // ---------------------------------------------------------------------------
  // Unlock progression
  // ---------------------------------------------------------------------------

  /** One element of `UNLOCK_PROGRESSION`; the reward's constructor plays the
      part of the `type` field. */
  datatype UnlockRule = UnlockRule(sceneCount: int, reward: Reward)

  const UnlockProgression: seq<UnlockRule> := [
    UnlockRule(1, NoetechReward("icarus-x")),
    UnlockRule(2, NoetechReward("vectra")),
    UnlockRule(3, NoetechReward("nexus")),
    UnlockRule(4, NoetechReward("she-tech")),
    UnlockRule(5, AnimationReward("icarus-x", "phoenix-dive"))
  ]

  /** The updated user and the `newlyUnlocked` array. */
  datatype Check = Check(user: User, newlyUnlocked: seq<UnlockRule>)

  function RewardsOf(rules: seq<UnlockRule>): seq<Reward> {
    seq(|rules|, i requires 0 <= i < |rules| => rules[i].reward)
  }

  lemma RewardsOfCons(rule: UnlockRule, rest: seq<UnlockRule>)
    ensures RewardsOf([rule] + rest) == [rule.reward] + RewardsOf(rest)
  {
  }

  /** The loop of `checkAndUnlockAnimations` over `rules`, in order: a rule
      fires when its count equals `scenesSaved` and its reward is not held
      yet (held as checked at that iteration), and then its reward is
      appended and the rule reported.

      The contract: only the two lists change, and only by appending exactly
      the rewards of the reported rules in report order; reported rules are a
      subsequence of `rules`, all for the current count and none held before;
      nothing held is lost.  `FireSaturates` and `FireKeepsWellFormed` add
      that every rule for the current count ends up held and that no repeat
      is introduced. */
  function Fire(rules: seq<UnlockRule>, u: User, now: int): (r: Check)
    ensures r.user == u.(unlockedNoetechs := r.user.unlockedNoetechs,
                         unlockedAnimations := r.user.unlockedAnimations)
    ensures r.user.unlockedNoetechs == u.unlockedNoetechs + NoetechKeys(RewardsOf(r.newlyUnlocked))
    ensures r.user.unlockedAnimations == u.unlockedAnimations + AnimationEntries(RewardsOf(r.newlyUnlocked), now)
    ensures IsSubsequence(r.newlyUnlocked, rules)
    ensures forall rule :: rule in r.newlyUnlocked ==> rule.sceneCount == u.scenesSaved && !Held(u, rule.reward)
    ensures forall x :: Held(u, x) ==> Held(r.user, x)
    decreases |rules|
  {
    if rules == [] then Check(u, [])
    else
      var rule := rules[0];
      assert rules == [rule] + rules[1..];
      if u.scenesSaved == rule.sceneCount && !Held(u, rule.reward) then
        var rest := Fire(rules[1..], Grant(u, rule.reward, now), now);
        FireFired(rules, u, now, rest);
        assert ([rule] + rest.newlyUnlocked)[1..] == rest.newlyUnlocked;
        Check(rest.user, [rule] + rest.newlyUnlocked)
      else
        Fire(rules[1..], u, now)
  }

  /** The step of `Fire` where the first rule fires: what the rest of the
      loop guarantees from the granted user carries over to the original
      user once the first rule is put in front of the report. */
  lemma FireFired(rules: seq<UnlockRule>, u: User, now: int, rest: Check)
    requires rules != [] && u.scenesSaved == rules[0].sceneCount && !Held(u, rules[0].reward)
    requires rest.user == Grant(u, rules[0].reward, now).(unlockedNoetechs := rest.user.unlockedNoetechs,
                                                          unlockedAnimations := rest.user.unlockedAnimations)
    requires rest.user.unlockedNoetechs
          == Grant(u, rules[0].reward, now).unlockedNoetechs + NoetechKeys(RewardsOf(rest.newlyUnlocked))
    requires rest.user.unlockedAnimations
          == Grant(u, rules[0].reward, now).unlockedAnimations + AnimationEntries(RewardsOf(rest.newlyUnlocked), now)
    requires forall rule :: rule in rest.newlyUnlocked ==>
               rule.sceneCount == u.scenesSaved && !Held(Grant(u, rules[0].reward, now), rule.reward)
    requires forall x :: Held(Grant(u, rules[0].reward, now), x) ==> Held(rest.user, x)
    ensures rest.user == u.(unlockedNoetechs := rest.user.unlockedNoetechs,
                            unlockedAnimations := rest.user.unlockedAnimations)
    ensures rest.user.unlockedNoetechs == u.unlockedNoetechs + NoetechKeys(RewardsOf([rules[0]] + rest.newlyUnlocked))
    ensures rest.user.unlockedAnimations
         == u.unlockedAnimations + AnimationEntries(RewardsOf([rules[0]] + rest.newlyUnlocked), now)
    ensures forall rule :: rule in [rules[0]] + rest.newlyUnlocked ==> rule.sceneCount == u.scenesSaved && !Held(u, rule.reward)
    ensures forall x :: Held(u, x) ==> Held(rest.user, x)
  {
    var rule := rules[0];
    RewardsOfCons(rule, rest.newlyUnlocked);
    GrantKeepsAllHeld(u, rule.reward, now);
    GrantAppends(u, rule.reward, now);
  }

  /** After the check, every rule for the current count is held. */
  lemma {:induction false} FireSaturates(rules: seq<UnlockRule>, u: User, now: int)
    ensures forall rule :: rule in rules && rule.sceneCount == u.scenesSaved ==>
      Held(Fire(rules, u, now).user, rule.reward)
    decreases |rules|
  {
    if rules != [] {
      var rule := rules[0];
      assert rules == [rule] + rules[1..];
      if u.scenesSaved == rule.sceneCount && !Held(u, rule.reward) {
        var granted := Grant(u, rule.reward, now);
        FireSaturates(rules[1..], granted, now);
        GrantHolds(u, rule.reward, now);
      } else {
        FireSaturates(rules[1..], u, now);
      }
    }
  }

  /** The check never introduces a repeat into either list. */
  lemma {:induction false} FireKeepsWellFormed(rules: seq<UnlockRule>, u: User, now: int)
    requires WellFormed(u)
    ensures WellFormed(Fire(rules, u, now).user)
    decreases |rules|
  {
    if rules != [] {
      var rule := rules[0];
      if u.scenesSaved == rule.sceneCount && !Held(u, rule.reward) {
        GrantFresh(u, rule.reward, now);
        FireKeepsWellFormed(rules[1..], Grant(u, rule.reward, now), now);
      } else {
        FireKeepsWellFormed(rules[1..], u, now);
      }
    }
  }

  /** Granting `reward` makes it held. */
  lemma GrantHolds(u: User, reward: Reward, now: int)
    ensures Held(Grant(u, reward, now), reward)
  {
    if reward.AnimationReward? {
      var v := Grant(u, reward, now);
      assert v.unlockedAnimations[|u.unlockedAnimations|] in v.unlockedAnimations;
    }
  }

  lemma GrantKeepsAllHeld(u: User, reward: Reward, now: int)
    ensures forall x :: Held(u, x) ==> Held(Grant(u, reward, now), x)
  {
    forall x | Held(u, x)
      ensures Held(Grant(u, reward, now), x)
    {
      GrantKeepsHeld(u, reward, x, now);
    }
  }

  lemma GrantAppends(u: User, reward: Reward, now: int)
    ensures Grant(u, reward, now).unlockedNoetechs == u.unlockedNoetechs + NoetechKeys([reward])
    ensures Grant(u, reward, now).unlockedAnimations == u.unlockedAnimations + AnimationEntries([reward], now)
  {
  }

  /** `checkAndUnlockAnimations(user)`; `now` is the `unlockedAt` default of
      an appended animation entry. */
  function CheckAndUnlockAnimations(u: User, now: int): Check {
    Fire(UnlockProgression, u, now)
  }

  /** What the route's table offers at a given save count. */
  function RouteMilestone(count: int): Option<Reward> {
    if 1 <= count <= 5 then Some(UnlockProgression[count - 1].reward) else None
  }

  /** When no rule is for the current count, nothing fires. */
  lemma {:induction false} FireNoMatch(rules: seq<UnlockRule>, u: User, now: int)
    requires forall i :: 0 <= i < |rules| ==> rules[i].sceneCount != u.scenesSaved
    ensures Fire(rules, u, now) == Check(u, [])
    decreases |rules|
  {
    if rules != [] {
      FireNoMatch(rules[1..], u, now);
    }
  }

  /** When exactly one rule is for the current count, it alone can fire, and
      it fires exactly when its reward is not held. */
  lemma {:induction false} FireSingleMatch(rules: seq<UnlockRule>, k: nat, u: User, now: int)
    requires k < |rules| && rules[k].sceneCount == u.scenesSaved
    requires forall i :: 0 <= i < |rules| && i != k ==> rules[i].sceneCount != u.scenesSaved
    ensures Fire(rules, u, now).newlyUnlocked == (if Held(u, rules[k].reward) then [] else [rules[k]])
    decreases |rules|
  {
    if k == 0 {
      if Held(u, rules[0].reward) {
        FireNoMatch(rules[1..], u, now);
      } else {
        FireNoMatch(rules[1..], Grant(u, rules[0].reward, now), now);
      }
    } else {
      FireSingleMatch(rules[1..], k - 1, u, now);
    }
  }

  /** The route's progression, count by count: at counts 1 to 5 exactly the
      table's reward for that count is unlocked unless already held; at any
      other count nothing is unlocked and the user is returned unchanged. */
  lemma {:induction false} RouteProgression(u: User, now: int)
    ensures var r := CheckAndUnlockAnimations(u, now);
      match RouteMilestone(u.scenesSaved)
      case None => r == Check(u, [])
      case Some(m) => r.newlyUnlocked == (if Held(u, m) then [] else [UnlockRule(u.scenesSaved, m)])
  {
    var c := u.scenesSaved;
    if 1 <= c <= 5 {
      FireSingleMatch(UnlockProgression, c - 1, u, now);
    } else {
      FireNoMatch(UnlockProgression, u, now);
    }
  }

  /** Once every rule for the current count is held, nothing fires. */
  lemma {:induction false} FireSaturated(rules: seq<UnlockRule>, u: User, now: int)
    requires forall rule :: rule in rules && rule.sceneCount == u.scenesSaved ==> Held(u, rule.reward)
    ensures Fire(rules, u, now) == Check(u, [])
    decreases |rules|
  {
    if rules != [] {
      assert rules[0] in rules;
      FireSaturated(rules[1..], u, now);
    }
  }

  /** Running the check a second time at the same count, at any later time,
      reports nothing and changes nothing. */
  lemma CheckIdempotent(u: User, now: int, later: int)
    ensures var first := CheckAndUnlockAnimations(u, now);
      CheckAndUnlockAnimations(first.user, later) == Check(first.user, [])
  {
    var first := CheckAndUnlockAnimations(u, now);
    FireSaturates(UnlockProgression, u, now);
    FireSaturated(UnlockProgression, first.user, later);
  }

  // ---------------------------------------------------------------------------
  // The create response
  // ---------------------------------------------------------------------------

  /** `s.charAt(0).toUpperCase() + s.slice(1)`, over ASCII. */
  function Capitalize(s: string): string {
    if s == [] then [] else [UpperChar(s[0])] + s[1..]
  }

  /** Capitalising changes at most the first character, and only its case. */
  lemma CapitalizeKeepsText(s: string)
    ensures |Capitalize(s)| == |s|
    ensures s != [] ==> Capitalize(s)[1..] == s[1..] && !IsLowerAscii(Capitalize(s)[0])
    ensures Lower(Capitalize(s)) == Lower(s)
    ensures Capitalize(Capitalize(s)) == Capitalize(s)
  {
  }

  /** One element of the response's `unlockedAnimations`. */
  datatype AnimationNotice = AnimationNotice(noetechKey: string, animationId: string, noetechName: string, animationName: string)

  datatype CreateResponse = CreateResponse(
    totalScenes: int,
    unlockedNoetechs: Option<seq<string>>,
    unlockedAnimations: Option<seq<AnimationNotice>>)

  /** `newUnlocks.filter(type === 'noetech').map(u => u.noetechKey)`. */
  function NoetechNotices(newly: seq<UnlockRule>): (r: seq<string>)
    ensures r == NoetechKeys(RewardsOf(newly))
  {
    if newly == [] then []
    else
      assert newly == [newly[0]] + newly[1..];
      RewardsOfCons(newly[0], newly[1..]);
      (if newly[0].reward.NoetechReward? then [newly[0].reward.key] else []) + NoetechNotices(newly[1..])
  }

  /** `newUnlocks.filter(type === 'animation').map(...)`, with both names
      capitalised (`animationName` is '' when the id is empty). */
  function AnimationNotices(newly: seq<UnlockRule>): (r: seq<AnimationNotice>)
    ensures |r| + |NoetechNotices(newly)| == |newly|
    ensures |r| == |AnimationEntries(RewardsOf(newly), 0)|
    ensures forall i :: 0 <= i < |r| ==>
      && r[i].noetechKey == AnimationEntries(RewardsOf(newly), 0)[i].noetechKey
      && r[i].animationId == AnimationEntries(RewardsOf(newly), 0)[i].animationId
      && r[i].noetechName == Capitalize(r[i].noetechKey)
      && r[i].animationName == Capitalize(r[i].animationId)
  {
    if newly == [] then []
    else
      assert newly == [newly[0]] + newly[1..];
      RewardsOfCons(newly[0], newly[1..]);
      var rest := AnimationNotices(newly[1..]);
      var entries := AnimationEntries(RewardsOf(newly[1..]), 0);
      match newly[0].reward
      case NoetechReward(_) =>
        assert AnimationEntries(RewardsOf(newly), 0) == entries;
        rest
      case AnimationReward(key, anim) =>
        assert AnimationEntries(RewardsOf(newly), 0) == [UnlockedAnimation(key, anim, 0)] + entries;
        [AnimationNotice(key, anim, Capitalize(key), if anim != [] then Capitalize(anim) else [])] + rest
  }

  /** The 201 body's unlock fields: each list is present only when it would
      be non-empty. */
  function BuildCreateResponse(totalScenes: int, newly: seq<UnlockRule>): (r: CreateResponse)
    ensures r.totalScenes == totalScenes
    ensures r.unlockedNoetechs.Some? <==> NoetechNotices(newly) != []
    ensures r.unlockedNoetechs.Some? ==> r.unlockedNoetechs.value == NoetechKeys(RewardsOf(newly))
    ensures r.unlockedAnimations.Some? <==> AnimationNotices(newly) != []
    ensures r.unlockedAnimations.Some? ==> r.unlockedAnimations.value == AnimationNotices(newly)
  {
    var n := NoetechNotices(newly);
    var a := AnimationNotices(newly);
    CreateResponse(totalScenes, if n != [] then Some(n) else None, if a != [] then Some(a) else None)
  }

  // ---------------------------------------------------------------------------
  // Handlers
  // ---------------------------------------------------------------------------

  datatype Status = BadRequest | NotFound | Forbidden | ServerError | Success

  const HueMin := 0.0
  const HueMax := 360.0

  /** The body of POST /api/scenes; `None` is an absent field. */
  datatype CreateRequest = CreateRequest(name: Option<string>, description: Option<string>, config: Option<Json>)

  datatype CreateOutcome =
    | CreateRejected(status: Status)
    | Created(scene: Scene, user: User, response: CreateResponse)

  /** The length validator.js's `isLength` measures: the UTF-16 length less
      one per surrogate pair and one per variation selector U+FE0E or
      U+FE0F, that is, the characters other than those two selectors. */
  function ValidatorLength(s: string): (n: nat)
    ensures n <= |s| <= Utf16Length(s)
    ensures (forall i :: 0 <= i < |s| ==> !IsVariationSelector(s[i])) ==> n == |s|
    decreases |s|
  {
    if s == [] then 0
    else (if IsVariationSelector(s[0]) then 0 else 1) + ValidatorLength(s[1..])
  }

  predicate IsVariationSelector(c: char) {
    c == '\U{FE0E}' || c == '\U{FE0F}'
  }

  /** A variation selector is free for the route's validator but counts for
      the schema's `maxlength`, which counts UTF-16 units. */
  lemma {:induction false} SelectorCountsOnlyForSchema(s: string)
    ensures ValidatorLength(s + "\U{FE0F}") == ValidatorLength(s)
    ensures Utf16Length(s + "\U{FE0F}") == Utf16Length(s) + 1
    decreases |s|
  {
    if s == [] {
      assert s + "\U{FE0F}" == "\U{FE0F}";
    } else {
      assert (s + "\U{FE0F}")[1..] == s[1..] + "\U{FE0F}";
      SelectorCountsOnlyForSchema(s[1..]);
    }
  }

  /** The route's validators for POST: `name` trimmed, non-empty and at most
      100 characters as `isLength` counts them; `config` an object. */
  predicate ValidCreateRequest(req: CreateRequest) {
    && req.name.Some?
    && JsTrim(req.name.value) != []
    && ValidatorLength(JsTrim(req.name.value)) <= NameMaxLength
    && req.config.Some? && req.config.value.JObj?
  }

  /** The document `new Scene({...})` builds from a valid POST body: the
      trimmed name, the description or "" and the given configuration. */
  function RequestedScene(req: CreateRequest, sceneId: string, u: User, now: int): Scene
    requires ValidCreateRequest(req)
  {
    var description := if req.description.Some? && req.description.value != [] then req.description.value else [];
    NewScene(sceneId, JsTrim(req.name.value), Some(description), u.id, req.config.value.fields, now)
  }

  /** POST /api/scenes: validate, create and save the scene, then count the
      save on the user and run the unlock check. A valid body is answered
      201 exactly when its document passes the schema. */
  function CreateScene(req: CreateRequest, sceneId: string, u: User, now: int): (r: CreateOutcome)
    ensures !ValidCreateRequest(req) ==> r == CreateRejected(BadRequest)
    ensures r.Created? <==> ValidCreateRequest(req) && ValidScene(RequestedScene(req, sceneId, u, now))
    ensures r.CreateRejected? ==> r.status in {BadRequest, ServerError}
    ensures r.Created? ==>
      && ValidCreateRequest(req)
      && ValidScene(r.scene)
      && r.scene.userId == u.id
      && r.scene.name == JsTrim(req.name.value)
      && r.user.scenesSaved == u.scenesSaved + 1
      && r.response.totalScenes == r.user.scenesSaved
      && u.unlockedNoetechs <= r.user.unlockedNoetechs
      && u.unlockedAnimations <= r.user.unlockedAnimations
      && (r.response.unlockedNoetechs.Some? ==>
            r.response.unlockedNoetechs.value == r.user.unlockedNoetechs[|u.unlockedNoetechs|..])
  {
    if !ValidCreateRequest(req) then CreateRejected(BadRequest)
    else
      var scene := RequestedScene(req, sceneId, u, now);
      match Save(scene, now)
      case None => CreateRejected(ServerError)
      case Some(saved) =>
        StripIdempotent(req.name.value, IsJsSpace);
        var check := CheckAndUnlockAnimations(u.(scenesSaved := u.scenesSaved + 1), now);
        Created(saved, check.user, BuildCreateResponse(check.user.scenesSaved, check.newlyUnlocked))
  }

  /** A name the route's validator accepts but whose UTF-16 length exceeds
      the schema's `maxlength` (a variation selector or a character outside
      the Basic Multilingual Plane counts more for the schema) is a server
      error, not a bad request. */
  lemma LongNameIsServerError(req: CreateRequest, sceneId: string, u: User, now: int)
    requires ValidCreateRequest(req)
    requires Utf16Length(JsTrim(req.name.value)) > NameMaxLength
    ensures CreateScene(req, sceneId, u, now) == CreateRejected(ServerError)
  {
  }

  /** The body of PUT /api/scenes/:id. */
  datatype UpdateRequest = UpdateRequest(name: Option<string>, description: Option<string>, config: Option<Json>)

  /** The route's validators for PUT: a given name is at most 100 characters
      once trimmed, as `isLength` counts them; a given config is an object; a
      given `config.environmentHue` is a number in [0, 360]. */
  predicate ValidUpdateRequest(req: UpdateRequest) {
    && (req.name.Some? ==> ValidatorLength(JsTrim(req.name.value)) <= NameMaxLength)
    && (req.config.Some? ==> req.config.value.JObj?)
    && (req.config.Some? && req.config.value.JObj? && "environmentHue" in req.config.value.fields ==>
          var hue := req.config.value.fields["environmentHue"];
          hue.JNum? && HueMin <= hue.n <= HueMax)
  }

  /** `{ ...old, ...incoming }`. */
  function MergeConfig(current: map<string, Json>, incoming: map<string, Json>): (r: map<string, Json>)
    ensures r.Keys == current.Keys + incoming.Keys
    ensures forall k :: k in incoming ==> r[k] == incoming[k]
    ensures forall k :: k in current && k !in incoming ==> r[k] == current[k]
  {
    current + incoming
  }

  /** Merging the same update twice is merging it once. */
  lemma MergeIdempotent(current: map<string, Json>, incoming: map<string, Json>)
    ensures MergeConfig(MergeConfig(current, incoming), incoming) == MergeConfig(current, incoming)
  {
  }

  /** The field updates of PUT: the (trimmed) name only when it is non-empty,
      the description whenever it is given (trimmed by the schema setter),
      the configuration merged key by key and then cut to the schema's
      paths. */
  function ApplyUpdate(s: Scene, req: UpdateRequest): (t: Scene)
    requires ValidUpdateRequest(req)
    ensures t.id == s.id && t.userId == s.userId && t.createdAt == s.createdAt && t.updatedAt == s.updatedAt
    ensures req.name.Some? && JsTrim(req.name.value) != [] ==> t.name == JsTrim(req.name.value)
    ensures (req.name.None? || JsTrim(req.name.value) == []) ==> t.name == s.name
    ensures req.description.Some? ==> t.description == JsTrim(req.description.value)
    ensures req.description.None? ==> t.description == s.description
    ensures req.config.None? ==> t.config == s.config
    ensures req.config.Some? ==> t.config == StrictConfig(MergeConfig(s.config, req.config.value.fields))
  {
    var s1 := if req.name.Some? && JsTrim(req.name.value) != [] then s.(name := JsTrim(JsTrim(req.name.value))) else s;
    var s2 := if req.description.Some? then s1.(description := JsTrim(req.description.value)) else s1;
    StripIdempotent(if req.name.Some? then req.name.value else [], IsJsSpace);
    if req.config.Some? then s2.(config := StrictConfig(MergeConfig(s.config, req.config.value.fields))) else s2
  }

  datatype Outcome = Outcome(status: Status, store: map<string, Scene>)

  /** PUT /api/scenes/:id: 400 on invalid input, then 404 when the scene does
      not exist, then 403 when the requester does not own it; otherwise the
      fields are updated and the scene saved (500 when the schema rejects
      it).  The store changes only on success, and only at `id`. */
  function UpdateScene(store: map<string, Scene>, id: string, requester: string, req: UpdateRequest, now: int): (r: Outcome)
    ensures !ValidUpdateRequest(req) ==> r == Outcome(BadRequest, store)
    ensures ValidUpdateRequest(req) && id !in store ==> r == Outcome(NotFound, store)
    ensures ValidUpdateRequest(req) && id in store && store[id].userId != requester ==> r == Outcome(Forbidden, store)
    ensures r.status != Success ==> r.store == store
    ensures r.status == Success <==>
      (ValidUpdateRequest(req) && id in store && store[id].userId == requester && ValidScene(ApplyUpdate(store[id], req)))
    ensures r.status == Success ==>
      r.store == store[id := ApplyUpdate(store[id], req).(updatedAt := now)]
  {
    if !ValidUpdateRequest(req) then Outcome(BadRequest, store)
    else if id !in store then Outcome(NotFound, store)
    else if store[id].userId != requester then Outcome(Forbidden, store)
    else
      match Save(ApplyUpdate(store[id], req), now)
      case None => Outcome(ServerError, store)
      case Some(saved) => Outcome(Success, store[id := saved])
  }

  /** DELETE /api/scenes/:id: 404 when the scene does not exist, then 403
      when the requester does not own it, otherwise the scene is removed. */
  function DeleteScene(store: map<string, Scene>, id: string, requester: string): (r: Outcome)
    ensures id !in store ==> r == Outcome(NotFound, store)
    ensures id in store && store[id].userId != requester ==> r == Outcome(Forbidden, store)
    ensures r.status == Success <==> id in store && store[id].userId == requester
    ensures r.status == Success ==> r.store.Keys == store.Keys - {id}
    ensures forall k :: k in r.store ==> k in store && r.store[k] == store[k]
  {
    if id !in store then Outcome(NotFound, store)
    else if store[id].userId != requester then Outcome(Forbidden, store)
    else Outcome(Success, store - {id})
  }

  /** Neither handler can touch a scene the requester does not own: every
      such scene is still there, unchanged. */
  lemma OthersScenesUntouched(store: map<string, Scene>, id: string, requester: string, req: UpdateRequest, now: int)
    ensures forall k :: k in store && store[k].userId != requester ==>
      && k in UpdateScene(store, id, requester, req, now).store
      && UpdateScene(store, id, requester, req, now).store[k] == store[k]
      && k in DeleteScene(store, id, requester).store
      && DeleteScene(store, id, requester).store[k] == store[k]
  {
  }

  /** Deleting twice: the second attempt finds nothing. */
  lemma DeleteTwice(store: map<string, Scene>, id: string, requester: string)
    requires DeleteScene(store, id, requester).status == Success
    ensures DeleteScene(DeleteScene(store, id, requester).store, id, requester).status == NotFound
  {
  }
}
