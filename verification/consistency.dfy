/** Facts that relate separate parts of the system: the scene schema and the
    update route, the scene schema and the geometry dispatch, and the two
    unlock progressions. */
module Consistency {
  import opened Wrappers
  import opened JsValues
  import opened UserModel
  import opened SceneSchema
  import opened SceneRoutes
  import GeometryDispatch

  /** The schema bounds `environmentHue` to the range the update route
      checks, so a hue the route accepts is one the schema accepts. */
  lemma HueBoundsAgree(req: UpdateRequest)
    requires ValidUpdateRequest(req)
    requires req.config.Some? && req.config.value.JObj? && "environmentHue" in req.config.value.fields
    ensures ConfigSchema["environmentHue"] == NumberField(0.0, Some(Bounds(HueMin, HueMax)))
    ensures ValidValue(ConfigSchema["environmentHue"], req.config.value.fields["environmentHue"])
  {
  }

  /** A scene saved with the default `objectType` is drawn by the same
      builder as a call that leaves the shape out. */
  lemma DefaultShapesAgree(options: Option<Json>)
    ensures ConfigSchema["objectType"] == StringField(GeometryDispatch.DefaultShape)
    ensures GeometryDispatch.CreateGeometry(Some(DefaultValue(ConfigSchema["objectType"])), options)
         == GeometryDispatch.CreateGeometry(None, options)
  {
  }

  /** The route's table and the model's hand-coded checks agree up to the
      third save and disagree after it: at save 4 the route unlocks she-tech
      while the model unlocks the phoenix-dive animation, which the route
      keeps for save 5, where the model unlocks nothing. */
  lemma ProgressionsDisagree(count: int)
    ensures count <= 3 || count > 5 ==> RouteMilestone(count) == ModelMilestone(count)
    ensures RouteMilestone(4) == Some(NoetechReward("she-tech"))
    ensures ModelMilestone(4) == Some(AnimationReward("icarus-x", "phoenix-dive"))
    ensures RouteMilestone(5) == Some(AnimationReward("icarus-x", "phoenix-dive"))
    ensures ModelMilestone(5) == None
  {
  }
}
