# Nexus Geom Lab backend: unlocks, scenes, shape dispatch and commit rewriting

A Dafny model of the pure logic in the Nexus Geom Lab backend and in its
maintenance scripts:

- **The unlock progression, in two variants.** The scene-save route walks
  the `UNLOCK_PROGRESSION` table (`SceneRoutes.Fire`). The User model's
  `incrementScenesSaved` is a set of hand-coded checks
  (`UserModel.IncrementScenesSaved`). Both only append, and only what the
  user does not hold yet. The two do not agree with each other, and the
  model keeps them apart (`Consistency.ProgressionsDisagree`).
- **The User and Scene documents.**
  - User: the schema defaults and the queries `hasUnlockedAnimation`,
    `getUnlockedAnimationsForNoetech` and `hasUnlockedNoetech`.
  - Scene: the trim setters, the name and description limits, the
    configuration block as a validator with defaults and bounds, and the
    pre-save hook that stamps `updatedAt`.
- **The scene routes.**
  - POST: the save counter, the unlock check and the response's unlock
    lists, with capitalised names.
  - PUT: the name/description rules, the key-by-key config merge, and the
    400, then 404, then 403 order.
  - DELETE: 404 before 403, then removal.
  - The store is a map from scene id to scene, so "nothing else changes"
    can be stated.
- **The CORS `origin` callback and the rate-limiter constants** of the
  API server.
- **The shape dispatch of `createGeometry`.**
  - The 25 case labels map one-to-one onto 25 builders, which are opaque
    tags here.
  - The quantum-manifold builders read `options.quantummanifold || options`.
  - `hypercube` is the legacy merged-box result.
  - Any other identifier yields a plain icosahedron, ignoring the options.
- **Three commit-message rewriters.** Each runs ordered keyword rules over
  the lower-cased subject, where the first rule that fires decides
  (`Classifier`):
  - `generate_rewrite_script.py`: `clean_message` and `format_final_message`.
  - `generate_final_rewrite_script.py`: `clean_key` and `generate_new_message`.
  - `rewrite_history.py`: `clean_message`.
  - Regular expressions are written out as predicates with Python's
    backtracking semantics.

Every operation is a pure function over immutable datatypes. Clocks (`now`)
and the authenticated user are parameters. Databases, HTTP and library
calls are replaced by the values they would hand over.

The routes load `../models/Scene` of `nxs-backend`. That file
(`nxs-backend/models/Scene.js`) is not part of this model. Its place is
taken by `nexus-geom-lab-backend/models/Scene.js`, the schema the routes'
validation is written against (`environmentHue` in [0, 360], names of at
most 100 characters).

## Model

| member | source | states |
|---|---|---|
| UserModel.NewUser | nxs-backend/models/User.js:5-52 | A user is created exactly when the trimmed username has 3 to 30 UTF-16 units, the trimmed email is non-empty and the password has at least 6. The new user then has the trimmed username, the lower-cased trimmed email, no saves, no unlocks and `createdAt = now`. |
| UserModel.FreshUser | nxs-backend/models/User.js:29-46 | A new account has no repeats, holds no character, and its first `incrementScenesSaved` unlocks exactly Icarus-X. |
| UserModel.HasUnlockedAnimation | nxs-backend/models/User.js:74-80 | True if and only if some entry has both the given character key and the given animation id. |
| UserModel.GetUnlockedAnimationsForNoetech | nxs-backend/models/User.js:83-86 | An order-preserving filter. The result is a subsequence of the list, every element has the key, and every entry with the key is kept as often as it occurs. |
| UserModel.HasUnlockedNoetech | nxs-backend/models/User.js:89-92 | True if and only if some animation entry has the key. The unlocked-characters list is not consulted. |
| UserModel.HasNoetechIffFilterNonEmpty | nxs-backend/models/User.js:83-92 | `hasUnlockedNoetech(k)` holds exactly when `getUnlockedAnimationsForNoetech(k)` is non-empty. |
| UserModel.AnimationImpliesNoetech | nxs-backend/models/User.js:74-92 | Holding animation (k, a) implies `hasUnlockedNoetech(k)`. |
| UserModel.IncrementScenesSaved | nxs-backend/models/User.js:95-136 | The counter goes up by exactly one and nothing but the two lists changes. The returned list is the milestone of the new count (1 icarus-x, 2 vectra, 3 nexus, 4 the phoenix-dive animation), or empty when the user already holds it or the count has none. Each list grows by exactly the returned rewards, appended at its end. |
| UserModel.IncrementKeepsWellFormed | nxs-backend/models/User.js:101-133 | A user whose lists have no repeats still has none after `incrementScenesSaved`. |
| SceneRoutes.Fire | nxs-backend/routes/scenes.js:28-62 | The loop of `checkAndUnlockAnimations`. Only the two lists change, and each grows by exactly the rewards of the reported rules, in report order. The reported rules are a subsequence of the table, all for the current count, and none was held before. Nothing held is lost. |
| SceneRoutes.CheckAndUnlockAnimations | nxs-backend/routes/scenes.js:28-62 | `checkAndUnlockAnimations` runs `Fire` over the route's five-rule table. `Fire`, `FireSaturates`, `FireKeepsWellFormed`, `RouteProgression` and `CheckIdempotent` state what it appends and reports. |
| SceneRoutes.FireSaturates | nxs-backend/routes/scenes.js:31-59 | After the check, the reward of every rule for the current count is held. |
| SceneRoutes.FireKeepsWellFormed | nxs-backend/routes/scenes.js:37-56 | Appending only absent keys and absent (key, animation) pairs keeps both lists free of repeats. |
| SceneRoutes.FireNoMatch | nxs-backend/routes/scenes.js:31-33 | When no rule is for the current count, nothing is reported and the user is unchanged. |
| SceneRoutes.FireSingleMatch | nxs-backend/routes/scenes.js:31-59 | When exactly one rule is for the current count, the report is that rule if its reward is not held, and empty otherwise. |
| SceneRoutes.RouteProgression | nxs-backend/routes/scenes.js:14-62 | At counts 1 to 5 the route unlocks exactly the table's reward for that count unless it is held. At every other count it unlocks nothing and leaves the user unchanged. |
| SceneRoutes.FireSaturated | nxs-backend/routes/scenes.js:37-56 | Once every reward for the current count is held, the check reports nothing and changes nothing. |
| SceneRoutes.CheckIdempotent | nxs-backend/routes/scenes.js:28-62 | Running the check again at the same count, at any later time, reports `[]` and changes nothing. |
| SceneRoutes.CapitalizeKeepsText | nxs-backend/routes/scenes.js:135-138 | Over ASCII, `charAt(0).toUpperCase() + slice(1)` keeps the length and everything after the first character, changes only the first character's case, and is idempotent. |
| SceneRoutes.Capitalize | nxs-backend/routes/scenes.js:135-138 | The capitalised names of the animation notices. `CapitalizeKeepsText` states what it keeps; `AnimationNotices` states where it is used. |
| SceneRoutes.NoetechNotices | nxs-backend/routes/scenes.js:114-128 | The response's character list is the keys of the character rewards among the new unlocks, in order. |
| SceneRoutes.AnimationNotices | nxs-backend/routes/scenes.js:115-139 | The animation list has one element per animation reward, in order, with its key and id and the capitalised names. Together with the character list it partitions the new unlocks. |
| SceneRoutes.BuildCreateResponse | nxs-backend/routes/scenes.js:113-140 | `totalScenes` is the count. Each unlock list is present exactly when it is non-empty, and then it holds the partitioned unlocks. |
| SceneRoutes.ValidatorLength | nxs-backend/routes/scenes.js:73 | The length `isLength` measures: never more than the number of characters, which is never more than the UTF-16 length. Without U+FE0E or U+FE0F it is the number of characters. |
| SceneRoutes.SelectorCountsOnlyForSchema | nxs-backend/routes/scenes.js:69-74 | Appending U+FE0F leaves the validator's length unchanged but adds one UTF-16 unit, the unit the schema's `maxlength` counts. |
| SceneRoutes.ValidCreateRequest | nxs-backend/routes/scenes.js:68-76 | The POST validators: a name that trims to non-empty, at most 100 as `isLength` counts, and an object config. `CreateScene` states that anything else is a 400. |
| SceneRoutes.LongNameIsServerError | nxs-backend/routes/scenes.js:65-153 | A name the route accepts whose trimmed UTF-16 length is over 100 (for example 100 letters and U+FE0F) fails the schema's `maxlength` and gives a 500, not a 400. |
| SceneRoutes.CreateScene | nxs-backend/routes/scenes.js:65-153 | An invalid body gives 400; a failure other than that is only a 500. The answer is 201 exactly when the body is valid and the document it builds (trimmed name, description or "", configuration) passes the schema. On success: the scene is valid, owned by the caller and named by the trimmed name; the count is one more than before and is the reported total; both lists keep the old contents as a prefix; the reported characters are exactly the appended ones. |
| SceneRoutes.MergeConfig | nxs-backend/routes/scenes.js:241-248 | Every incoming key takes the incoming value. Every other existing key keeps its old value. No other key appears. |
| SceneRoutes.MergeIdempotent | nxs-backend/routes/scenes.js:241-248 | Merging the same update twice is merging it once. |
| SceneRoutes.ValidUpdateRequest | nxs-backend/routes/scenes.js:183-198 | The PUT validators: a given name at most 100 as `isLength` counts after trimming, a given config an object, and a given hue a number in [0, 360]. `UpdateScene` states that anything else is a 400 before any lookup, and `Consistency.HueBoundsAgree` that an accepted hue is within the schema's bounds. |
| SceneRoutes.ApplyUpdate | nxs-backend/routes/scenes.js:235-248 | The name is replaced only by a non-empty (trimmed) name. The description is replaced whenever it is given, even by an empty string. The config is merged, and then cut to the schema's keys. Id, owner and timestamps are unchanged. |
| SceneRoutes.UpdateScene | nxs-backend/routes/scenes.js:181-267 | Checks run in order: 400 on an invalid body, then 404 on a missing scene, then 403 on a foreign scene. The store changes only on success, and then only at that id, to the updated scene stamped with `now`. |
| SceneRoutes.DeleteScene | nxs-backend/routes/scenes.js:270-310 | 404 comes before 403. Success happens exactly for an owned, existing scene and removes just that key. No remaining scene is altered. |
| SceneRoutes.OthersScenesUntouched | nxs-backend/routes/scenes.js:213-293 | Neither PUT nor DELETE can remove or alter a scene the requester does not own. |
| SceneRoutes.DeleteTwice | nxs-backend/routes/scenes.js:274-295 | After a successful delete, deleting the same id again gives 404. |
| SceneSchema.StrictConfig | nexus-geom-lab-backend/models/Scene.js:27-61 | Strict mode keeps exactly the configuration keys the schema declares, with their given values. |
| SceneSchema.WithDefaults | nexus-geom-lab-backend/models/Scene.js:27-61 | Every declared key that is missing gets its default. Given keys keep their values. |
| SceneSchema.DefaultsWithinBounds | nexus-geom-lab-backend/models/Scene.js:29-60 | Every default has its field's type and lies within its [min, max]. An empty configuration filled with defaults is valid. |
| SceneSchema.NewScene | nexus-geom-lab-backend/models/Scene.js:4-73 | Name and description are trimmed, and a missing description is "". The configuration has exactly the schema's keys: given values where provided, defaults elsewhere. |
| SceneSchema.PreSave | nexus-geom-lab-backend/models/Scene.js:76-80 | The hook sets `updatedAt` to `now` and changes no other field. |
| SceneSchema.ValidScene | nexus-geom-lab-backend/models/Scene.js:5-61 | The document validators: a non-empty name of at most 100 UTF-16 units, a description of at most 500, and a config in bounds. `Save` states that saving succeeds exactly for such a scene, and `DefaultsWithinBounds` that the defaults meet it. |
| SceneSchema.Save | nexus-geom-lab-backend/models/Scene.js:4-80 | Saving succeeds exactly for a valid scene: a non-empty name of at most 100 units, a description of at most 500, and a config within bounds. The result is the same scene stamped with `now`. |
| Cors.CheckOrigin | nxs-backend/index.js:38-54 | An absent or empty origin, any origin starting with `http://localhost:`, and the configured frontend URL are allowed. Every other origin is rejected with "Not allowed by CORS". |
| Cors.HttpsLocalhostRejected | nxs-backend/index.js:43-53 | `https://localhost:<port>` is rejected unless it is the configured frontend. |
| Cors.WithoutFrontend | nxs-backend/index.js:38-54 | With `FRONTEND_URL` unset, an origin passes exactly when it is empty or starts with `http://localhost:`. |
| Cors.AuthLimiterIsStricter | nxs-backend/index.js:72-77 | Both limiters use the same 15-minute window, and the auth limit (20) is below the global one (300). |
| Consistency.HueBoundsAgree | nxs-backend/routes/scenes.js:194-197 | A hue the PUT validator accepts lies in the schema's bounds for `environmentHue`, which are [0, 360]. |
| Consistency.DefaultShapesAgree | nexus-geom-lab-backend/models/Scene.js:49 | The schema's default `objectType` selects the same builder as a `createGeometry` call that leaves the type out. |
| Consistency.ProgressionsDisagree | nxs-backend/routes/scenes.js:14-25 | The route's table and `incrementScenesSaved` agree at counts up to 3 and above 5. At 4 the route unlocks she-tech where the model unlocks phoenix-dive. At 5 the route unlocks phoenix-dive where the model unlocks nothing. |
| GeometryDispatch.IdentifierOf | src/features/sceneControls/objects/geometryCreation.js:32-135 | Every builder has a case label among the 25 listed identifiers. |
| GeometryDispatch.BuilderFor | src/features/sceneControls/objects/geometryCreation.js:32-135 | A builder is selected exactly when the identifier is one of the 25 case labels. |
| GeometryDispatch.ManifoldArgument | src/features/sceneControls/objects/geometryCreation.js:35-39 | Reading `options.quantummanifold`, with `options` as the fallback, fails only on `null` options. The result differs from `options` only when the property is truthy, and then it is that property. |
| GeometryDispatch.CreateGeometry | src/features/sceneControls/objects/geometryCreation.js:31-139 | A missing type selects the icosahedron builder. Every builder but the two manifolds receives the options, defaulting to `{}`. A TypeError is raised exactly when a manifold label meets `null` options (reading `options.quantummanifold` on `null`). A type that is not a string reaches the default, the plain icosahedron. The merged boxes come exactly from `hypercube`. |
| GeometryDispatch.SelectionRoundTrip | src/features/sceneControls/objects/geometryCreation.js:32-135 | Label and builder are mutual inverses: each builder's label selects it, and a label that selects a builder is that builder's label. |
| GeometryDispatch.ListedSelectsItsBuilder | src/features/sceneControls/objects/geometryCreation.js:41-135 | Each non-manifold label builds with its own builder, which receives the options unchanged. |
| GeometryDispatch.ManifoldOptionsSelection | src/features/sceneControls/objects/geometryCreation.js:33-39 | The two manifold labels pass `options.quantummanifold` when it is truthy and the whole options otherwise. |
| GeometryDispatch.UnknownIgnoresOptions | src/features/sceneControls/objects/geometryCreation.js:137-138 | An unknown identifier yields the plain icosahedron whatever the options, and this differs from what `icosahedron` yields. |
| GeometryDispatch.DefaultIsIcosahedron | src/features/sceneControls/objects/geometryCreation.js:31 | Leaving the type out is the same call as passing 'icosahedron'. |
| GeometryDispatch.CaseSensitive | src/features/sceneControls/objects/geometryCreation.js:32-138 | Matching is exact: 'ICOSAHEDRON' and 'Cube' fall to the default branch. |
| GeometryDispatch.HypercubeFamily | src/features/sceneControls/objects/geometryCreation.js:57-84 | 'cube', 'box' and 'simplecpdhypercube' select the compound hypercube, the compound tesseract and the simple compound hypercube. 'hypercube' gives two boxes (edges 1.5 and 0.75, the inner one raised by 0.02), tagged compound, BoxGeometry and hypercube. |
| Classifier.Classify | generate_rewrite_script.py:23-57 | The chain yields the kind of the first rule that fires, and the fallback only when none fires. |
| Classifier.ClassifyRange | generate_rewrite_script.py:23-57 | A chain can only produce one of its rules' kinds or the fallback. |
| RewriteScript.MatchTail | generate_rewrite_script.py:12 | `(\(.*\))?: (.*)` matches exactly when the text starts with ": " or a scope can close before ": ". The greedy scope closes at the last such place on the line. The content runs to the end of the line. |
| RewriteScript.MatchConventional | generate_rewrite_script.py:12 | `^(\w+)(\(.*\))?: (.*)` matches exactly when the subject splits into a non-empty word run that is not followed by a word character and a tail that `MatchTail` accepts. For every such split the groups are that run, and the scope and content the tail yields, so the split and the groups are unique. |
| RewriteScript.MatchIsPrefix | generate_rewrite_script.py:12 | A match re-assembles to a prefix of the subject that ends at a line end. |
| RewriteScript.Subject | generate_rewrite_script.py:4-6 | The subject has no '\n' and no white space at either end. |
| RewriteScript.OnlyFirstLineMatters | generate_rewrite_script.py:4-6 | Anything after the first line has no effect on `clean_message`. |
| RewriteScript.CleanSubjectKeepsConventional | generate_rewrite_script.py:12-19 | A conventional subject comes back with only its type lower-cased. Scope and content are unchanged. |
| RewriteScript.CleanSubjectPrefixes | generate_rewrite_script.py:21-59 | Any other subject is prefixed, verbatim, by one of the seven types and ": ". |
| RewriteScript.RuleDecides | generate_rewrite_script.py:23-54 | The first of the startswith rules (feat, fix, chore, refactor, chore, docs, style, test) and then the substring rules (readme, merge, initial commit) that fires decides the type. |
| RewriteScript.CleanSubject | generate_rewrite_script.py:8-59 | The rewrite of one subject. `CleanSubjectKeepsConventional` and `CleanSubjectPrefixes` state its two branches, `RuleDecides` and `NoRuleIsChore` the type it picks. |
| RewriteScript.CleanMessage | generate_rewrite_script.py:3-59 | `clean_message`: the subject rewrite of the first line. `OnlyFirstLineMatters`, `CleanMessageIdempotent`, `EmptySubjectNotIdempotent` and `PipelineIsConventional` state its properties. |
| RewriteScript.NoRuleIsChore | generate_rewrite_script.py:56-57 | When no rule fires the type is "chore". |
| RewriteScript.ChainKinds | generate_rewrite_script.py:23-57 | The chain only produces feat, fix, chore, refactor, docs, style or test. |
| RewriteScript.CleanMessageIdempotent | generate_rewrite_script.py:3-59 | For any message with a non-empty subject, cleaning a cleaned message changes nothing. |
| RewriteScript.EmptySubjectNotIdempotent | generate_rewrite_script.py:3-59 | An empty message cleans to "chore: ", and "chore: " cleans to "chore: chore:", so cleaning is not idempotent there. |
| RewriteScript.ChoreFiresNoRule | generate_rewrite_script.py:22-54 | None of the startswith words starts "chore:", and none of "readme", "merge" and "initial commit" occurs in it. |
| RewriteScript.LowerFirst | generate_rewrite_script.py:69 | Only the first character is lower-cased, and the length is kept. |
| RewriteScript.FormatFinalMessage | generate_rewrite_script.py:61-78 | A message that does not match comes back unchanged. A matching one comes back as a single line, with every later line dropped, and it re-parses to the same type and scope with the polished content, so its groups are recovered from the result. |
| RewriteScript.PolishLowersFirstLetter | generate_rewrite_script.py:68-69 | Without a repeated type, the content changes only in its first character, which is lower-cased. |
| RewriteScript.PolishDropsRepeatedType | generate_rewrite_script.py:74-75 | Content that starts with "<type>:" in any case ("Feat:" as well as "feat:") loses that prefix, and the rest is stripped. |
| RewriteScript.Polish | generate_rewrite_script.py:67-75 | The content rewrite of `format_final_message`. `PolishLowersFirstLetter` and `PolishDropsRepeatedType` state its two cases, and `FormatFinalMessage` that the rewritten content is the content group of the result. |
| RewriteScript.PipelineIsConventional | generate_rewrite_script.py:3-78 | `format_final_message(clean_message(m))` always matches the pattern, with a lower-case type. |
| FinalRewrite.CleanKey | generate_final_rewrite_script.py:4-7 | The cleaned key is no longer than the key and has no white space at either end. |
| FinalRewrite.CleanKeyWithoutMarker | generate_final_rewrite_script.py:7 | A key without the end marker is only stripped. |
| FinalRewrite.CleanKeyDropsClosingMarker | generate_final_rewrite_script.py:4-7 | A message followed by the marker that `git log` appends is recovered, stripped. |
| FinalRewrite.CleanKeyDropsMarker | generate_final_rewrite_script.py:4-7 | A marker with more text after it is removed together with every later marker, and the rest is joined and stripped. |
| FinalRewrite.CleanKeyDropsTwoMarkers | generate_final_rewrite_script.py:4-7 | Both of two markers are removed, the three pieces around them joined and stripped. |
| FinalRewrite.ConventionalHasColon | generate_final_rewrite_script.py:22-26 | A subject the pattern accepts contains ':', so `split(':', 1)` has a second part. |
| FinalRewrite.IsConventional | generate_final_rewrite_script.py:21-22 | The case-insensitive pattern test. `ConventionalHasColon` states that an accepted subject has a ':', and `ConventionalKept` that it keeps everything from that ':' on. |
| FinalRewrite.LowerType | generate_final_rewrite_script.py:25-26 | Only the text before the first ':' is lower-cased. The length and everything from the colon on are kept. |
| FinalRewrite.LowerTypeIdempotent | generate_final_rewrite_script.py:25-26 | Lower-casing the type twice is doing it once. |
| FinalRewrite.FinalSubject | generate_final_rewrite_script.py:18-19 | The subject is one line with no white space at either end. |
| FinalRewrite.FinalOnlyFirstLine | generate_final_rewrite_script.py:18-19 | Anything after the first line has no effect on `generate_new_message`. |
| FinalRewrite.DropFinalDot | generate_final_rewrite_script.py:44-45 | Exactly one trailing '.' is removed, and only when there is one. |
| FinalRewrite.GenerateNewMessage | generate_final_rewrite_script.py:17-47 | The result always contains ':'. |
| FinalRewrite.ConventionalKept | generate_final_rewrite_script.py:21-26 | A conventional subject (case-insensitive type, optional scope, ": " and text) keeps its length and everything from the first ':' on. Everything before it is lower-cased. |
| FinalRewrite.KeywordPriority | generate_final_rewrite_script.py:28-42 | The first keyword group found in the lower-cased subject decides, in the order fix, feat, docs, style, refactor, test. |
| FinalRewrite.FixWins | generate_final_rewrite_script.py:29-30 | Any subject containing fix, bug, resolve or correct becomes a fix, whatever else it contains. |
| FinalRewrite.NoKeywordIsChore | generate_final_rewrite_script.py:41-47 | Without any keyword the type is "chore". |
| FinalRewrite.EmptySubject | generate_final_rewrite_script.py:17-47 | A message whose first line is empty becomes "chore: ". |
| FinalRewrite.GenerateIdempotent | generate_final_rewrite_script.py:17-47 | The result is conventional, and rewriting it again changes nothing, unless it ends in white space. |
| RewriteHistory.Subject | rewrite_history.py:8-12 | The subject is the stripped first line. It has no line boundary and no white space at either end. |
| RewriteHistory.CleanMessage | rewrite_history.py:4-68 | The result is empty exactly when the message has no subject. `ConventionalUnchanged`, `MergeUnchanged`, `RewrittenExactly`, `RewrittenShape` and `CleanIdempotent` state the other outcomes and idempotence. |
| RewriteHistory.RewrittenExactly | rewrite_history.py:16-68 | A message with a subject is changed exactly when its lower-cased subject is neither conventional nor a merge that no rule claimed. |
| RewriteHistory.ConventionalUnchanged | rewrite_history.py:23-24 | A subject starting with a conventional type, an optional scope and ':' keeps the whole message, body included. |
| RewriteHistory.IsConventional | rewrite_history.py:23-24 | The pattern test on the lower-cased subject. `ConventionalUnchanged` states that an accepted subject keeps the message, and `RewrittenIsConventional` that a rewritten message is accepted. |
| RewriteHistory.KeptAsMerge | rewrite_history.py:45-46 | The merge branch: no earlier rule fires and the subject starts with "merge". `MergeFiresNoRule` states that the second condition implies the first, and `MergeUnchanged` that such a message is kept. |
| RewriteHistory.MergeFiresNoRule | rewrite_history.py:29-46 | No keyword rule claims a subject that starts with "merge", so the merge branch is reached. |
| RewriteHistory.MergeUnchanged | rewrite_history.py:45-46 | A subject starting with "merge" keeps the whole message. |
| RewriteHistory.Retype | rewrite_history.py:49-52 | "bump" anywhere gives chore. Otherwise "typo" anywhere gives docs. The result is always one of seven types. |
| RewriteHistory.BodySuffix | rewrite_history.py:65-66 | An empty body adds nothing. Otherwise the addition starts with a line break. |
| RewriteHistory.RewrittenShape | rewrite_history.py:20-68 | A subject that is neither conventional nor a merge is changed, and the result re-parses under `clean_message`'s own split: its subject is the type, ": " and the old subject verbatim, and its stripped body is the old stripped body. |
| RewriteHistory.ChainPriority | rewrite_history.py:23-44 | For a subject that is not conventional and has no bump or typo, the first prefix rule that fires (feat, fix, chore, refactor, docs, chore, style, test) decides the type. |
| RewriteHistory.FallbackIsChore | rewrite_history.py:26-52 | A subject that is not conventional, does not start with "merge", has no bump or typo and fires no rule gets the default type chore. |
| RewriteHistory.TypoMeansDocs | rewrite_history.py:49-50 | A subject that is neither conventional nor a merge and contains "typo" and not "bump" is a docs commit. |
| RewriteHistory.BumpBeatsTypo | rewrite_history.py:49-52 | A subject that is neither conventional nor a merge and contains "bump" is a chore commit, even if it also contains "typo". |
| RewriteHistory.RewrittenIsConventional | rewrite_history.py:23-24 | A message of the rewritten shape is kept as it is on a second run. |
| RewriteHistory.CleanIdempotent | rewrite_history.py:4-68 | For every message, cleaning the result again changes nothing. |

## Left out

- bcrypt hashing in the User pre-save hook and `comparePassword`: library calls. `password` holds what the caller gave.
- JWT middleware, `auth.js` routes, Mongoose queries and index creation: the authenticated user, the current store and the clock are parameters instead.
- Uniqueness of username and email: these are database indexes.
- The GET `/my-scenes` route: it is a database query sorted by `createdAt`, with no logic of its own.
- helmet, morgan, `express.json()` and the rate limiters' counting: library internals. Only the limiter constants are kept.
- Response envelopes (`success`, `message`, the scene document): only the status, the store and the unlock lists are modelled.
- Unexpected exceptions: a server error is modelled only where the Scene validators reject a document.
- Mongoose type casting: a value must already have the declared type, so a numeric string is not cast to a Number.
- SceneRoutes.UpdateScene, SceneRoutes.ValidUpdateRequest, SceneRoutes.ValidCreateRequest: a string `environmentHue` such as "180" or "1e2" is answered 400 by PUT and 500 by POST here. In the code, `isFloat` accepts it and Mongoose casts it to a Number, so PUT answers 200 and POST 201. Parsing numbers out of strings is not modelled.
- SceneSchema.Save: `required`, `maxlength`, `min` and `max` are the only validators. Lengths count UTF-16 units.
- The geometry builders, `THREE.BoxGeometry`, `mergeGeometries` and `computeVertexNormals`: each builder is an opaque tag. The legacy hypercube is recorded as its two box sizes and its tags, not as vertices.
- The React components (NavBar, QuantumNav, ScrambleLink, ScrambleButton, IcarusEnvironment): UI timing and randomness.
- Script I/O: `get_git_log`, `main`, reading and writing `do_rewrite.py`, the `git filter-repo` invocation and the bytes/UTF-8 decoding and encoding. Messages are strings, and the empty `b""` result is the empty string.
- Case folding and `\w` are ASCII only. Python's `str.lower()`, `re.IGNORECASE` and `\w`, and JavaScript's `toLowerCase` (the User email) and `toUpperCase` (`SceneRoutes.Capitalize`), also cover non-ASCII letters; `toUpperCase` can even lengthen a string ('ß' becomes "SS").
- RewriteScript.CleanMessageIdempotent: requires a non-empty subject. The empty message cleans to "chore: " and that to "chore: chore:" (`RewriteScript.EmptySubjectNotIdempotent`).
- FinalRewrite.GenerateIdempotent: requires that the result does not end in white space. A subject such as "fix ." ends in a space once its '.' is dropped, and the script does not re-strip it.
- Consistency.ProgressionsDisagree: the two progressions are kept as the code has them. The route's table is what the save route runs. `incrementScenesSaved` is not called by any route shown.
- Unknown shape identifiers: the model follows the code, which builds a plain `IcosahedronGeometry()` without options. This is not `createIcosahedron(options)`.
