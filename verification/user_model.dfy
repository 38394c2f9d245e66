/** The User document of the backend: account fields, the save counter and the
    two unlock lists, with the instance methods that read and grow them.
    Password hashing in the pre-save hook and `comparePassword` are bcrypt calls
    and are not part of this model: `password` holds what the caller gave. */
module UserModel {
  import opened Wrappers
  import opened Strings
  import opened Sequences

  /** One element of `unlockedAnimations`; `unlockedAt` is a timestamp in
      milliseconds supplied by the caller. */
  datatype UnlockedAnimation = UnlockedAnimation(noetechKey: string, animationId: string, unlockedAt: int)

  datatype User = User(
    id: string,
    username: string,
    email: string,
    password: string,
    scenesSaved: int,
    unlockedAnimations: seq<UnlockedAnimation>,
    unlockedNoetechs: seq<string>,
    createdAt: int)

  /** Something a save can unlock: a character (a "noetech"), or one
      animation of a character. */
  datatype Reward =
    | NoetechReward(key: string)
    | AnimationReward(noetechKey: string, animationId: string)

  const UsernameMinLength := 3
  const UsernameMaxLength := 30
  const PasswordMinLength := 6

  // ---------------------------------------------------------------------------
  // Creation
  // ---------------------------------------------------------------------------

  /** `new User({...})` followed by validation: the `trim` setters apply to
      username and email, `lowercase` to email; `required`, `minlength` and
      `maxlength` are then checked, counting UTF-16 code units as JavaScript's
      `length` does.  `None` is a validation error.  The
      uniqueness of username and email is a database index and is not
      modelled. */
  function NewUser(id: string, username: string, email: string, password: string, now: int): (r: Option<User>)
    ensures r.Some? <==>
      (UsernameMinLength <= Utf16Length(JsTrim(username)) <= UsernameMaxLength
       && JsTrim(email) != []
       && Utf16Length(password) >= PasswordMinLength)
    ensures r.Some? ==>
      && r.value.username == JsTrim(username)
      && HasNoUpper(r.value.email)
      && Lower(r.value.email) == Lower(JsTrim(email))
      && r.value.scenesSaved == 0
      && r.value.unlockedAnimations == []
      && r.value.unlockedNoetechs == []
      && r.value.createdAt == now
  {
    var name := JsTrim(username);
    var mail := Lower(JsTrim(email));
    LowerIsLower(JsTrim(email));
    if UsernameMinLength <= Utf16Length(name) <= UsernameMaxLength && mail != [] && Utf16Length(password) >= PasswordMinLength then
      Some(User(id, name, mail, password, 0, [], [], now))
    else
      None
  }

  // ---------------------------------------------------------------------------
  // Queries
  // ---------------------------------------------------------------------------

  /** Some entry of `list` is the animation `animationId` of `noetechKey`. */
  function AnyAnimation(list: seq<UnlockedAnimation>, noetechKey: string, animationId: string): (r: bool)
    ensures r <==> exists i :: 0 <= i < |list| && list[i].noetechKey == noetechKey && list[i].animationId == animationId
  {
    if list == [] then false
    else
      (list[0].noetechKey == noetechKey && list[0].animationId == animationId)
      || AnyAnimation(list[1..], noetechKey, animationId)
  }

  /** `user.hasUnlockedAnimation(noetechKey, animationId)`. */
  function HasUnlockedAnimation(u: User, noetechKey: string, animationId: string): (r: bool)
    ensures r <==> exists e :: e in u.unlockedAnimations && e.noetechKey == noetechKey && e.animationId == animationId
  {
    AnyAnimation(u.unlockedAnimations, noetechKey, animationId)
  }

  /** The entries of `list` that belong to `noetechKey`, in list order. */
  function AnimationsFor(list: seq<UnlockedAnimation>, noetechKey: string): (r: seq<UnlockedAnimation>)
    ensures forall e :: e in r ==> e.noetechKey == noetechKey
    ensures forall e: UnlockedAnimation :: e.noetechKey == noetechKey ==> multiset(r)[e] == multiset(list)[e]
    ensures IsSubsequence(r, list)
  {
    if list == [] then []
    else
      var rest := AnimationsFor(list[1..], noetechKey);
      assert list == [list[0]] + list[1..];
      if list[0].noetechKey == noetechKey then [list[0]] + rest else rest
  }

  /** `user.getUnlockedAnimationsForNoetech(noetechKey)`. */
  function GetUnlockedAnimationsForNoetech(u: User, noetechKey: string): (r: seq<UnlockedAnimation>)
    ensures forall e :: e in r ==> e.noetechKey == noetechKey
    ensures forall e: UnlockedAnimation :: e.noetechKey == noetechKey ==> multiset(r)[e] == multiset(u.unlockedAnimations)[e]
    ensures IsSubsequence(r, u.unlockedAnimations)
  {
    AnimationsFor(u.unlockedAnimations, noetechKey)
  }

  /** Some entry of `list` belongs to `noetechKey`. */
  function AnyFor(list: seq<UnlockedAnimation>, noetechKey: string): (r: bool)
    ensures r <==> exists i :: 0 <= i < |list| && list[i].noetechKey == noetechKey
  {
    if list == [] then false
    else list[0].noetechKey == noetechKey || AnyFor(list[1..], noetechKey)
  }

  /** `user.hasUnlockedNoetech(noetechKey)`.  It looks at
      `unlockedAnimations`, not at `unlockedNoetechs`: a character counts as
      unlocked here only once one of its animations is. */
  function HasUnlockedNoetech(u: User, noetechKey: string): (r: bool)
    ensures r <==> exists e :: e in u.unlockedAnimations && e.noetechKey == noetechKey
  {
    AnyFor(u.unlockedAnimations, noetechKey)
  }

  /** `hasUnlockedNoetech` holds exactly when the per-character filter is not
      empty. */
  lemma HasNoetechIffFilterNonEmpty(u: User, noetechKey: string)
    ensures HasUnlockedNoetech(u, noetechKey) <==> GetUnlockedAnimationsForNoetech(u, noetechKey) != []
  {
    var r := GetUnlockedAnimationsForNoetech(u, noetechKey);
    if e :| e in u.unlockedAnimations && e.noetechKey == noetechKey {
      assert multiset(u.unlockedAnimations)[e] > 0;
      assert multiset(r)[e] > 0;
    }
  }

  /** Holding an animation of a character implies holding the character. */
  lemma AnimationImpliesNoetech(u: User, noetechKey: string, animationId: string)
    ensures HasUnlockedAnimation(u, noetechKey, animationId) ==> HasUnlockedNoetech(u, noetechKey)
  {
  }

  /** The two unlock lists hold no repeats: no character key twice, and no
      (character, animation) pair twice. */
  predicate WellFormed(u: User) {
    && NoDuplicates(u.unlockedNoetechs)
    && forall i, j :: 0 <= i < j < |u.unlockedAnimations| ==>
         !(u.unlockedAnimations[i].noetechKey == u.unlockedAnimations[j].noetechKey
           && u.unlockedAnimations[i].animationId == u.unlockedAnimations[j].animationId)
  }

  // ---------------------------------------------------------------------------
  // Granting rewards
  // ---------------------------------------------------------------------------

  /** The user already has `reward`: the key is in `unlockedNoetechs`, or an
      entry of `unlockedAnimations` has both the key and the animation id. */
  predicate Held(u: User, reward: Reward) {
    match reward
    case NoetechReward(key) => key in u.unlockedNoetechs
    case AnimationReward(key, anim) => HasUnlockedAnimation(u, key, anim)
  }

  /** Appends `reward` to the list it belongs to, stamped with `now` when it
      is an animation. */
  function Grant(u: User, reward: Reward, now: int): User {
    match reward
    case NoetechReward(key) => u.(unlockedNoetechs := u.unlockedNoetechs + [key])
    case AnimationReward(key, anim) =>
      u.(unlockedAnimations := u.unlockedAnimations + [UnlockedAnimation(key, anim, now)])
  }

  /** The character keys among `rewards`, in order. */
  function NoetechKeys(rewards: seq<Reward>): seq<string> {
    if rewards == [] then []
    else (if rewards[0].NoetechReward? then [rewards[0].key] else []) + NoetechKeys(rewards[1..])
  }

  /** The animation entries that granting `rewards` at `now` appends, in order. */
  function AnimationEntries(rewards: seq<Reward>, now: int): seq<UnlockedAnimation> {
    if rewards == [] then []
    else
      (if rewards[0].AnimationReward? then [UnlockedAnimation(rewards[0].noetechKey, rewards[0].animationId, now)] else [])
      + AnimationEntries(rewards[1..], now)
  }

  /** Granting a reward the user does not hold keeps both lists free of
      repeats, and afterwards the reward is held. */
  lemma GrantFresh(u: User, reward: Reward, now: int)
    requires WellFormed(u)
    requires !Held(u, reward)
    ensures WellFormed(Grant(u, reward, now))
    ensures Held(Grant(u, reward, now), reward)
  {
    var v := Grant(u, reward, now);
    match reward
    case NoetechReward(key) =>
      AppendFreshKeepsNoDuplicates(u.unlockedNoetechs, key);
    case AnimationReward(key, anim) =>
      assert v.unlockedAnimations[|u.unlockedAnimations|] == UnlockedAnimation(key, anim, now);
  }

  /** Granting never takes a reward away. */
  lemma GrantKeepsHeld(u: User, reward: Reward, other: Reward, now: int)
    requires Held(u, other)
    ensures Held(Grant(u, reward, now), other)
  {
    if other.AnimationReward? {
      var e :| e in u.unlockedAnimations && e.noetechKey == other.noetechKey && e.animationId == other.animationId;
      assert e in Grant(u, reward, now).unlockedAnimations;
    }
  }

  // ---------------------------------------------------------------------------
  // incrementScenesSaved
  // ---------------------------------------------------------------------------

  /** What the hand-coded progression of `incrementScenesSaved` offers at a
      given (already incremented) save count. */
  function ModelMilestone(count: int): Option<Reward> {
    if count == 1 then Some(NoetechReward("icarus-x"))
    else if count == 2 then Some(NoetechReward("vectra"))
    else if count == 3 then Some(NoetechReward("nexus"))
    else if count == 4 then Some(AnimationReward("icarus-x", "phoenix-dive"))
    else None
  }

  /** The updated document and the array `incrementScenesSaved` returns. */
  datatype Increment = Increment(user: User, unlocked: seq<Reward>)

  /** One `if (this.scenesSaved === count && !this.unlockedNoetechs.includes(key))` block. */
  function UnlockNoetechAt(st: Increment, count: int, key: string): Increment {
    if st.user.scenesSaved == count && key !in st.user.unlockedNoetechs then
      Increment(st.user.(unlockedNoetechs := st.user.unlockedNoetechs + [key]), st.unlocked + [NoetechReward(key)])
    else
      st
  }

  /** `user.incrementScenesSaved()`, written as the method's four sequential
      checks; `now` is the `new Date()` of the animation entry.  The
      contract relates it to the milestone table: exactly the milestone of
      the new count is appended, and only when the user does not hold it. */
  function IncrementScenesSaved(u: User, now: int): (r: Increment)
    ensures r.user.scenesSaved == u.scenesSaved + 1
    ensures r.user == u.(scenesSaved := u.scenesSaved + 1,
                         unlockedNoetechs := r.user.unlockedNoetechs,
                         unlockedAnimations := r.user.unlockedAnimations)
    ensures r.unlocked ==
      (match ModelMilestone(u.scenesSaved + 1)
       case Some(m) => if Held(u, m) then [] else [m]
       case None => [])
    ensures r.user.unlockedNoetechs == u.unlockedNoetechs + NoetechKeys(r.unlocked)
    ensures r.user.unlockedAnimations == u.unlockedAnimations + AnimationEntries(r.unlocked, now)
  {
    var s0 := Increment(u.(scenesSaved := u.scenesSaved + 1), []);
    var s1 := UnlockNoetechAt(s0, 1, "icarus-x");
    var s2 := UnlockNoetechAt(s1, 2, "vectra");
    var s3 := UnlockNoetechAt(s2, 3, "nexus");
    if s3.user.scenesSaved == 4 && !HasUnlockedAnimation(s3.user, "icarus-x", "phoenix-dive") then
      Increment(
        s3.user.(unlockedAnimations := s3.user.unlockedAnimations + [UnlockedAnimation("icarus-x", "phoenix-dive", now)]),
        s3.unlocked + [AnimationReward("icarus-x", "phoenix-dive")])
    else
      s3
  }

  /** `incrementScenesSaved` never introduces a repeat into either list. */
  lemma IncrementKeepsWellFormed(u: User, now: int)
    requires WellFormed(u)
    ensures WellFormed(IncrementScenesSaved(u, now).user)
  {
    var r := IncrementScenesSaved(u, now);
    var v := u.(scenesSaved := u.scenesSaved + 1);
    match ModelMilestone(u.scenesSaved + 1)
    case None =>
    case Some(m) =>
      if !Held(u, m) {
        GrantFresh(v, m, now);
        assert r.user == Grant(v, m, now);
      }
  }

  /** A fresh account holds nothing, and its first save unlocks Icarus-X. */
  lemma FreshUser(id: string, username: string, email: string, password: string, now: int, later: int)
    requires NewUser(id, username, email, password, now).Some?
    ensures var u := NewUser(id, username, email, password, now).value;
      && WellFormed(u)
      && (forall k :: !HasUnlockedNoetech(u, k))
      && IncrementScenesSaved(u, later).unlocked == [NoetechReward("icarus-x")]
  {
    var u := NewUser(id, username, email, password, now).value;
    EmptyUser(u, later);
  }

  /** A user with no saves and no unlocks. */
  lemma EmptyUser(u: User, later: int)
    requires u.scenesSaved == 0 && u.unlockedAnimations == [] && u.unlockedNoetechs == []
    ensures WellFormed(u) && forall k :: !HasUnlockedNoetech(u, k)
    ensures IncrementScenesSaved(u, later).unlocked == [NoetechReward("icarus-x")]
  {
  }
}
