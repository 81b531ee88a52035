/** The MVC action-model convention that infers where each action parameter is bound
    from. A source set earlier is never overwritten; otherwise a complex type is read
    from the body, a name that is a route value from the path, and anything else from
    the query string. More than one body parameter is an error. */
module InferParameterBindingInfo {
  import opened Outcomes

  /** `BindingSource`, compared by its id. */
  datatype BindingSource = BindingSource(id: string)

  const Body: BindingSource := BindingSource("Body")
  const Path: BindingSource := BindingSource("Path")
  const Query: BindingSource := BindingSource("Query")

  /** The part of `BindingInfo` the convention reads and writes: the binding source, and
      the model name, which stands for every other setting it leaves alone. */
  datatype BindingInfo = BindingInfo(bindingSource: Option<BindingSource>, binderModelName: Option<string>)

  /** A parameter of the action: its name, its declared type, and its binding info, or null. */
  datatype Parameter = Parameter(name: string, parameterType: string, bindingInfo: Option<BindingInfo>)

  /** A selector of the action, after flattening: its attribute route template, or null
      when the selector has no attribute route. */
  datatype Selector = Selector(attributeRouteTemplate: Option<string>)

  /** An action: its parameters in order and its flattened selectors. */
  datatype Action = Action(parameters: seq<Parameter>, selectors: seq<Selector>)

  /** The services the convention consults and does not define: the model metadata's
      `IsComplexType` for a parameter type, and whether a parsed route template declares
      a parameter of a given name. */
  datatype Services = Services(
    isComplexType: string -> bool,
    templateHasParameter: (string, string) -> bool)

  /** A parameter whose binding info and binding source are both present. */
  predicate HasSource(p: Parameter) {
    p.bindingInfo.Some? && p.bindingInfo.value.bindingSource.Some?
  }

  /** The parameter is bound from the body. */
  predicate IsBody(p: Parameter) {
    HasSource(p) && p.bindingInfo.value.bindingSource.value == Body
  }

  /** Some selector with an attribute route has a template that declares `name`. */
  predicate InAnyRoute(selectors: seq<Selector>, name: string, services: Services) {
    exists i :: 0 <= i < |selectors| && selectors[i].attributeRouteTemplate.Some?
      && services.templateHasParameter(selectors[i].attributeRouteTemplate.value, name)
  }

  /** `ParameterExistsInAnyRoute`: scans the selectors in order, skipping those without an
      attribute route, and stops at the first template that declares the name. */
  method ParameterExistsInAnyRoute(selectors: seq<Selector>, name: string, services: Services)
    returns (found: bool)
    ensures found <==> InAnyRoute(selectors, name, services)
  {
    var i := 0;
    while i < |selectors|
      invariant 0 <= i <= |selectors|
      invariant forall k :: 0 <= k < i ==>
        !(selectors[k].attributeRouteTemplate.Some?
          && services.templateHasParameter(selectors[k].attributeRouteTemplate.value, name))
    {
      var template := selectors[i].attributeRouteTemplate;
      if template.Some? && services.templateHasParameter(template.value, name) {
        return true;
      }
      i := i + 1;
    }
    return false;
  }

  /** `InferBindingSourceForParameter`: Body for a complex type, whatever the routes say;
      else Path when the name is a route value; else Query. */
  method InferBindingSourceForParameter(p: Parameter, selectors: seq<Selector>, services: Services)
    returns (source: BindingSource)
    ensures services.isComplexType(p.parameterType) ==> source == Body
    ensures !services.isComplexType(p.parameterType) && InAnyRoute(selectors, p.name, services)
      ==> source == Path
    ensures !services.isComplexType(p.parameterType) && !InAnyRoute(selectors, p.name, services)
      ==> source == Query
  {
    if services.isComplexType(p.parameterType) {
      return Body;
    }
    var inRoute := ParameterExistsInAnyRoute(selectors, p.name, services);
    if inRoute {
      return Path;
    }
    return Query;
  }

  /** The source the rules give a parameter that has none. */
  function InferredSource(p: Parameter, selectors: seq<Selector>, services: Services): BindingSource {
    if services.isComplexType(p.parameterType) then Body
    else if InAnyRoute(selectors, p.name, services) then Path
    else Query
  }

  /** A parameter after the first pass: unchanged when it has a source; otherwise its
      binding info (created when null, the other settings kept) gets the inferred source. */
  function Settled(p: Parameter, selectors: seq<Selector>, services: Services): Parameter {
    if HasSource(p) then p
    else
      var info := p.bindingInfo.GetOr(BindingInfo(None, None));
      p.(bindingInfo := Some(info.(bindingSource := Some(InferredSource(p, selectors, services)))))
  }

  /** Two distinct parameters are bound from the body. */
  predicate MultipleBody(ps: seq<Parameter>) {
    exists i, j :: 0 <= i < j < |ps| && IsBody(ps[i]) && IsBody(ps[j])
  }

  /** The number of body parameters. */
  function CountBody(ps: seq<Parameter>): nat
    decreases |ps|
  {
    if ps == [] then 0
    else CountBody(ps[..|ps| - 1]) + (if IsBody(ps[|ps| - 1]) then 1 else 0)
  }

  /** `InferParameterBindingSources`: settles every parameter in order, then counts the
      body parameters. The parameters are updated even when the count then raises the
      error, so the updated action is returned alongside the outcome. */
  method InferParameterBindingSources(action: Action, services: Services)
    returns (updated: Action, error: Option<Error>)
    ensures updated.selectors == action.selectors
    ensures |updated.parameters| == |action.parameters|
    ensures forall i :: 0 <= i < |action.parameters| ==>
      updated.parameters[i] == Settled(action.parameters[i], action.selectors, services)
    ensures forall i :: 0 <= i < |updated.parameters| ==> HasSource(updated.parameters[i])
    ensures error.Some? <==> MultipleBody(updated.parameters)
    ensures error.Some? ==> error.value == InvalidOperation
  {
    var parameters := action.parameters;
    var i := 0;
    while i < |parameters|
      invariant 0 <= i <= |parameters| && |parameters| == |action.parameters|
      invariant forall k :: 0 <= k < i ==>
        parameters[k] == Settled(action.parameters[k], action.selectors, services)
      invariant forall k :: i <= k < |parameters| ==> parameters[k] == action.parameters[k]
    {
      var p := parameters[i];
      if !HasSource(p) {
        var source := InferBindingSourceForParameter(p, action.selectors, services);
        var info := p.bindingInfo.GetOr(BindingInfo(None, None));
        parameters := parameters[i := p.(bindingInfo := Some(info.(bindingSource := Some(source))))];
      }
      i := i + 1;
    }
    updated := action.(parameters := parameters);
    forall k | 0 <= k < |parameters| ensures HasSource(parameters[k]) {
      SettledHasSource(action.parameters[k], action.selectors, services);
    }

    var count := 0;
    var j := 0;
    while j < |parameters|
      invariant 0 <= j <= |parameters|
      invariant count == CountBody(parameters[..j])
    {
      assert parameters[..j + 1][..j] == parameters[..j];
      if IsBody(parameters[j]) {
        count := count + 1;
      }
      j := j + 1;
    }
    assert parameters[..j] == parameters;
    CountBodyMultiple(parameters);
    error := if count > 1 then Some(InvalidOperation) else None;
  }

  /** `Apply`: a null action is an argument error; an action the convention does not apply
      to is left as it is; otherwise the binding sources are inferred. */
  method Apply(action: Option<Action>, shouldApply: Action -> bool, services: Services)
    returns (updated: Option<Action>, error: Option<Error>)
    ensures action.None? ==> updated.None? && error == Some(ArgumentNull("action"))
    ensures action.Some? && !shouldApply(action.value) ==> updated == action && error.None?
    ensures action.Some? && shouldApply(action.value) ==>
      && updated.Some?
      && |updated.value.parameters| == |action.value.parameters|
      && (forall i :: 0 <= i < |action.value.parameters| ==>
            updated.value.parameters[i]
              == Settled(action.value.parameters[i], action.value.selectors, services))
      && updated.value.selectors == action.value.selectors
      && (error.Some? <==> MultipleBody(updated.value.parameters))
      && (error.Some? ==> error.value == InvalidOperation)
  {
    if action.None? {
      return None, Some(ArgumentNull("action"));
    }
    if !shouldApply(action.value) {
      return action, None;
    }
    var a, e := InferParameterBindingSources(action.value, services);
    return Some(a), e;
  }

  // ---------------------------------------------------------------------------
  // Properties of the rules

  /** After the first pass every parameter has a source; one that had a source keeps it
      and everything else about it; one that had none differs only in its source, and
      any binding info it had keeps its other settings. */
  lemma SettledHasSource(p: Parameter, selectors: seq<Selector>, services: Services)
    ensures HasSource(Settled(p, selectors, services))
    ensures HasSource(p) ==> Settled(p, selectors, services) == p
    ensures var q := Settled(p, selectors, services);
      && q.name == p.name && q.parameterType == p.parameterType
      && (!HasSource(p) ==> q.bindingInfo.value.bindingSource == Some(InferredSource(p, selectors, services)))
      && (p.bindingInfo.Some? ==> q.bindingInfo.value.binderModelName == p.bindingInfo.value.binderModelName)
  {
  }

  /** The priority of the rules: a complex type is Body even when its name is a route
      value; a route value is Path; anything else is Query. Only these three are inferred. */
  lemma InferencePriority(p: Parameter, selectors: seq<Selector>, services: Services)
    ensures services.isComplexType(p.parameterType) ==> InferredSource(p, selectors, services) == Body
    ensures !services.isComplexType(p.parameterType) ==>
      (InferredSource(p, selectors, services) == Path <==> InAnyRoute(selectors, p.name, services))
    ensures InferredSource(p, selectors, services) in {Body, Path, Query}
  {
  }

  /** Settling twice is settling once: a second run changes no parameter. */
  lemma SettledIdempotent(p: Parameter, selectors: seq<Selector>, services: Services)
    ensures Settled(Settled(p, selectors, services), selectors, services) == Settled(p, selectors, services)
  {
  }

  /** Selectors without an attribute route never make a name a route value. */
  lemma UnroutedSelectorsIgnored(selectors: seq<Selector>, extra: seq<Selector>, name: string, services: Services)
    requires forall k :: 0 <= k < |extra| ==> extra[k].attributeRouteTemplate.None?
    ensures InAnyRoute(selectors + extra, name, services) <==> InAnyRoute(selectors, name, services)
  {
    if InAnyRoute(selectors + extra, name, services) {
      var i :| 0 <= i < |selectors + extra| && (selectors + extra)[i].attributeRouteTemplate.Some?
        && services.templateHasParameter((selectors + extra)[i].attributeRouteTemplate.value, name);
      assert (selectors + extra)[i] == selectors[i];
    }
    if InAnyRoute(selectors, name, services) {
      var i :| 0 <= i < |selectors| && selectors[i].attributeRouteTemplate.Some?
        && services.templateHasParameter(selectors[i].attributeRouteTemplate.value, name);
      assert (selectors + extra)[i] == selectors[i];
    }
  }

  /** Counting the body parameters: at least two exactly when two distinct ones exist. */
  lemma {:induction false} CountBodyMultiple(ps: seq<Parameter>)
    ensures CountBody(ps) > 1 <==> MultipleBody(ps)
    decreases |ps|
  {
    if ps != [] {
      var init := ps[..|ps| - 1];
      CountBodyMultiple(init);
      CountBodyPositive(init);
      if MultipleBody(init) {
        var i, j :| 0 <= i < j < |init| && IsBody(init[i]) && IsBody(init[j]);
        assert ps[i] == init[i] && ps[j] == init[j];
      }
      if MultipleBody(ps) {
        var i, j :| 0 <= i < j < |ps| && IsBody(ps[i]) && IsBody(ps[j]);
        if j < |ps| - 1 {
          assert init[i] == ps[i] && init[j] == ps[j];
        } else {
          assert init[i] == ps[i];
        }
      }
      if CountBody(ps) > 1 && !MultipleBody(init) {
        var i :| 0 <= i < |init| && IsBody(init[i]);
        assert ps[i] == init[i];
        assert IsBody(ps[|ps| - 1]);
      }
    }
  }

  /** Counting the body parameters: at least one exactly when one exists. */
  lemma {:induction false} CountBodyPositive(ps: seq<Parameter>)
    ensures CountBody(ps) > 0 <==> exists i :: 0 <= i < |ps| && IsBody(ps[i])
    decreases |ps|
  {
    if ps != [] {
      var init := ps[..|ps| - 1];
      CountBodyPositive(init);
      if exists i :: 0 <= i < |init| && IsBody(init[i]) {
        var i :| 0 <= i < |init| && IsBody(init[i]);
        assert ps[i] == init[i];
      }
      if exists i :: 0 <= i < |ps| && IsBody(ps[i]) {
        var i :| 0 <= i < |ps| && IsBody(ps[i]);
        if i < |ps| - 1 {
          assert init[i] == ps[i];
        }
      }
    }
  }
}
