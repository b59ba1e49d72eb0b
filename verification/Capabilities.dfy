/** Capabilities, when one scope narrows another, and what a capability list permits. */
module Capabilities {
  import opened Common
  import opened Windows

  /** `keyOrder` is the order in which the object spells its keys: one comparison below sees it. */
  datatype MeterField = MeterField(
    source: string, metric: string, unit: Option<string>, precision: Option<int>, keyOrder: seq<string>)

  datatype Period = Hour | Day | Week | Month

  datatype Scope =
    | Allowlist(field: string, values: seq<string>)
    | NumericLimit(field: string, max: real, currency: Option<string>)
    | Temporal(notBefore: int, notAfter: int, recurring: Option<RecurringWindow>)
    | Cumulative(meterField: MeterField, max: real, window: Period, currency: Option<string>)
    | Unknown(kind: string)

  datatype Capability = Capability(action: string, scope: Scope)

  datatype Side = Parent | Child

  datatype Detail =
    | MissingDimension(dimension: string)
    | IntroducedDimension(dimension: string)
    | TemporalSubset(reason: string)
    | CumulativeSubset(reason: string)
    | ScopeTypeUnknown(kind: string)
    | AllowlistViolation(field: string)
    | NumericLimitViolation(field: string)
    | DuplicateDimension(side: Side, action: string, dimension: string)
    | EmptyAllowlist(side: Side, action: string, field: string)

  function PeriodName(p: Period): string {
    match p
    case Hour => "hour"
    case Day => "day"
    case Week => "week"
    case Month => "month"
  }

  function TypeName(s: Scope): string {
    match s
    case Allowlist(_, _) => "allowlist"
    case NumericLimit(_, _, _) => "numeric_limit"
    case Temporal(_, _, _) => "temporal_scope"
    case Cumulative(_, _, _, _) => "cumulative_limit"
    case Unknown(kind) => kind
  }

  /** The dimension a scope constrains. */
  function ScopeMatchKey(s: Scope): string {
    match s
    case Allowlist(field, _) => "allowlist:" + field
    case NumericLimit(field, _, _) => "numeric_limit:" + field
    case Temporal(_, _, _) => "temporal_scope"
    case Cumulative(m, _, window, _) => "cumulative_limit:" + m.metric + ":" + PeriodName(window)
    case Unknown(kind) => "__unknown__:" + kind
  }

  predicate IsPhase2(s: Scope) {
    s.Temporal? || s.Cumulative?
  }

  function NarrowsWindow(child: Option<RecurringWindow>, parent: Option<RecurringWindow>): bool {
    parent.Some? ==> child.Some? && WindowSubset(child.value, parent.value)
  }

  /** None when the child scope narrows the parent scope, otherwise the rule it breaks. */
  function IsScopeSubset(child: Scope, parent: Scope): Option<Detail> {
    match (child, parent)
    case (Allowlist(f, vs), Allowlist(g, ws)) =>
      if f != g || exists v :: v in vs && v !in ws then Some(AllowlistViolation(f)) else None
    case (NumericLimit(f, m, _), NumericLimit(g, n, _)) =>
      if f != g || m > n then Some(NumericLimitViolation(f)) else None
    case (Temporal(nb, na, rw), Temporal(nb', na', rw')) =>
      if nb < nb' then Some(TemporalSubset("notBefore"))
      else if na > na' then Some(TemporalSubset("notAfter"))
      else if !NarrowsWindow(rw, rw') then Some(TemporalSubset("recurringWindow"))
      else None
    case (Cumulative(mf, m, w, c), Cumulative(mf', m', w', c')) =>
      if mf != mf' then Some(CumulativeSubset("meterField"))
      else if m > m' then Some(CumulativeSubset("max"))
      else if w != w' then Some(CumulativeSubset("window"))
      else if c != c' then Some(CumulativeSubset("currency"))
      else None
    case (_, _) => Some(ScopeTypeUnknown(TypeName(child)))
  }

  predicate Narrows(child: Scope, parent: Scope) {
    IsScopeSubset(child, parent).None?
  }

  lemma NarrowsTransitive(a: Scope, b: Scope, c: Scope)
    requires Narrows(a, b) && Narrows(b, c)
    ensures Narrows(a, c)
  {
  }

  lemma NarrowsReflexive(s: Scope)
    ensures Narrows(s, s) <==> !s.Unknown?
  {
  }

  // ------------------------------------------------------------------ the token verifier's reading

  datatype Value = Text(text: string) | Number(number: real) | NotANumber | Null | Other

  type Params = map<string, Value>

  datatype Check = Allowed | NotForThisAgent | InvalidAction | ScopeExceeded | UnsupportedScope

  predicate PassesLight(s: Scope, params: Params) {
    match s
    case Allowlist(field, values) => field in params && params[field].Text? && params[field].text in values
    case NumericLimit(field, max, _) =>
      field !in params || params[field].NotANumber? || (params[field].Number? && params[field].number <= max)
    case _ => false
  }

  function FirstFailure(caps: seq<Capability>, action: string, params: Params): Check
    decreases |caps|
  {
    if caps == [] then Allowed
    else if caps[0].action == action && !PassesLight(caps[0].scope, params) then
      if caps[0].scope.Allowlist? || caps[0].scope.NumericLimit? then ScopeExceeded else UnsupportedScope
    else FirstFailure(caps[1..], action, params)
  }

  predicate HasAction(caps: seq<Capability>, action: string) {
    exists c :: c in caps && c.action == action
  }

  function CheckTokenForAction(
    issuedTo: string, caps: seq<Capability>, action: string, params: Params, agent: string): Check
  {
    if issuedTo != agent then NotForThisAgent
    else if !HasAction(caps, action) then InvalidAction
    else FirstFailure(caps, action, params)
  }

  /** Some capability names the action, and every one that does is satisfied. */
  predicate PermitsLight(caps: seq<Capability>, action: string, params: Params) {
    HasAction(caps, action) && forall c :: c in caps && c.action == action ==> PassesLight(c.scope, params)
  }

  lemma {:induction false} FirstFailureMeaning(caps: seq<Capability>, action: string, params: Params)
    ensures FirstFailure(caps, action, params) == Allowed <==>
      forall c :: c in caps && c.action == action ==> PassesLight(c.scope, params)
    decreases |caps|
  {
    if caps != [] {
      FirstFailureMeaning(caps[1..], action, params);
      assert caps == [caps[0]] + caps[1..];
    }
  }

  lemma CheckMeaning(issuedTo: string, caps: seq<Capability>, action: string, params: Params, agent: string)
    ensures CheckTokenForAction(issuedTo, caps, action, params, agent) == Allowed <==>
      issuedTo == agent && PermitsLight(caps, action, params)
  {
    FirstFailureMeaning(caps, action, params);
  }

  lemma LightContained(child: Scope, parent: Scope, params: Params)
    requires Narrows(child, parent) && PassesLight(child, params)
    ensures PassesLight(parent, params)
  {
    if child.Allowlist? {
      assert params[child.field].text in child.values;
    }
  }

  /** Which requests pass, by the value of the constrained field: an allowlist wants one of its texts; a limit
      bounds a number, and lets a missing field and NaN through; no other scope is known here. */
  lemma LightMeaning(s: Scope, params: Params)
    ensures s.Allowlist? ==>
      (PassesLight(s, params) <==> exists v :: v in s.values && s.field in params && params[s.field] == Text(v))
    ensures s.NumericLimit? && s.field !in params ==> PassesLight(s, params)
    ensures s.NumericLimit? && s.field in params ==> (
      PassesLight(s, params) <==>
        (params[s.field].Number? && params[s.field].number <= s.max) || params[s.field].NotANumber?)
    ensures !s.Allowlist? && !s.NumericLimit? ==> !PassesLight(s, params)
  {
    if s.Allowlist? && PassesLight(s, params) {
      assert params[s.field].text in s.values;
    }
  }

  /** Containment has a converse: between two allowlists or two limits on one field, narrowing is inclusion of the
      requests that pass. */
  lemma NarrowsIsInclusion(child: Scope, parent: Scope)
    requires (child.Allowlist? && parent.Allowlist?) || (child.NumericLimit? && parent.NumericLimit?)
    requires child.field == parent.field
    ensures Narrows(child, parent) <==> forall params :: PassesLight(child, params) ==> PassesLight(parent, params)
  {
    if Narrows(child, parent) {
      forall params | PassesLight(child, params) ensures PassesLight(parent, params) {
        LightContained(child, parent, params);
      }
    } else if child.NumericLimit? {
      var params: Params := map[child.field := Number(child.max)];
      assert PassesLight(child, params) && !PassesLight(parent, params);
    } else {
      var v :| v in child.values && v !in parent.values;
      var params: Params := map[child.field := Text(v)];
      assert PassesLight(child, params) && !PassesLight(parent, params);
    }
  }

  /** The remaining kinds, field by field, and nothing across kinds or fields. */
  lemma NarrowsByField(child: Scope, parent: Scope)
    ensures child.Temporal? && parent.Temporal? ==>
      (Narrows(child, parent) <==>
        && parent.notBefore <= child.notBefore && child.notAfter <= parent.notAfter
        && (parent.recurring.Some? ==>
            child.recurring.Some? && WindowSubset(child.recurring.value, parent.recurring.value)))
    ensures child.Cumulative? && parent.Cumulative? ==>
      (Narrows(child, parent) <==> child.max <= parent.max && child == parent.(max := child.max))
    ensures Narrows(child, parent) ==> SameKind(child, parent)
  {
  }

  /** Scopes that can be compared at all. */
  predicate SameKind(a: Scope, b: Scope) {
    match (a, b)
    case (Allowlist(f, _), Allowlist(g, _)) => f == g
    case (NumericLimit(f, _, _), NumericLimit(g, _, _)) => f == g
    case (Temporal(_, _, _), Temporal(_, _, _)) => true
    case (Cumulative(_, _, _, _), Cumulative(_, _, _, _)) => true
    case _ => false
  }

  /** The rule that a rejected pair is reported to break is broken, and for the kinds with several rules it is the
      first one. */
  lemma DetailMeaning(child: Scope, parent: Scope, d: Detail)
    requires IsScopeSubset(child, parent) == Some(d)
    ensures SameKind(child, parent) || (child.Allowlist? && parent.Allowlist? && d == AllowlistViolation(child.field))
      || (child.NumericLimit? && parent.NumericLimit? && d == NumericLimitViolation(child.field))
      || d == ScopeTypeUnknown(TypeName(child))
    ensures SameKind(child, parent) ==>
      match child
      case Allowlist(f, vs) => d == AllowlistViolation(f) && exists v :: v in vs && v !in parent.values
      case NumericLimit(f, max, _) => d == NumericLimitViolation(f) && max > parent.max
      case Temporal(notBefore, notAfter, _) =>
        d == TemporalSubset(if notBefore < parent.notBefore then "notBefore"
                            else if notAfter > parent.notAfter then "notAfter" else "recurringWindow")
      case Cumulative(m, max, w, _) =>
        d == CumulativeSubset(if m != parent.meterField then "meterField" else if max > parent.max then "max"
                              else if w != parent.window then "window" else "currency")
      case Unknown(_) => true
  {
  }

  /** Every refusal of a request has its cause, in the order of the checks. */
  lemma RefusalMeaning(issuedTo: string, caps: seq<Capability>, action: string, params: Params, agent: string)
    ensures var check := CheckTokenForAction(issuedTo, caps, action, params, agent);
            && (check == NotForThisAgent <==> issuedTo != agent)
            && (check == InvalidAction <==> issuedTo == agent && forall c :: c in caps ==> c.action != action)
            && (check == ScopeExceeded || check == UnsupportedScope ==>
                exists i :: 0 <= i < |caps| && FailsAt(caps, action, params, i) &&
                  (check == ScopeExceeded <==> caps[i].scope.Allowlist? || caps[i].scope.NumericLimit?))
  {
    if issuedTo == agent && HasAction(caps, action) { FirstFailureAt(caps, action, params); }
  }

  /** Capability `i` is the first that names the action and is not satisfied. */
  predicate FailsAt(caps: seq<Capability>, action: string, params: Params, i: nat)
    requires i < |caps|
  {
    && caps[i].action == action && !PassesLight(caps[i].scope, params)
    && forall j :: 0 <= j < i && caps[j].action == action ==> PassesLight(caps[j].scope, params)
  }

  function ScopeFailure(s: Scope): Check {
    if s.Allowlist? || s.NumericLimit? then ScopeExceeded else UnsupportedScope
  }

  lemma {:induction false} FirstFailureAt(caps: seq<Capability>, action: string, params: Params)
    ensures var check := FirstFailure(caps, action, params);
            check == Allowed || exists i ::
              0 <= i < |caps| && FailsAt(caps, action, params, i) && check == ScopeFailure(caps[i].scope)
    decreases |caps|
  {
    if caps != [] {
      if caps[0].action == action && !PassesLight(caps[0].scope, params) {
        assert FailsAt(caps, action, params, 0);
      } else if FirstFailure(caps, action, params) != Allowed {
        FirstFailureAt(caps[1..], action, params);
        var i :| 0 <= i < |caps[1..]| && FailsAt(caps[1..], action, params, i) &&
          FirstFailure(caps[1..], action, params) == ScopeFailure(caps[1..][i].scope);
        assert caps[1..][i] == caps[i + 1];
        assert FailsAt(caps, action, params, i + 1) by {
          forall j | 0 <= j < i + 1 && caps[j].action == action ensures PassesLight(caps[j].scope, params) {
            if j > 0 { assert caps[1..][j - 1] == caps[j]; }
          }
        }
      }
    }
  }

  // ------------------------------------------------------------------ the scope evaluator's reading

  /** What one evaluation sees: the time, the local time in each zone it accepts, the running totals
      (absent when no tracker was injected) and the verdicts of registered plug-ins. */
  datatype Context = Context(
    now: int, local: string -> Option<LocalTime>, spent: Option<(MeterField, Period) -> real>, plugin: string -> bool)

  ghost predicate ValidContext(ctx: Context) {
    forall tz :: ctx.local(tz).Some? ==> ValidLocal(ctx.local(tz).value)
  }

  predicate MatchesCandidate(actual: string, candidate: string) {
    if |candidate| > 1 && candidate[0] == '*' then
      |candidate| - 1 <= |actual| && actual[|actual| - (|candidate| - 1)..] == candidate[1..]
    else actual == candidate
  }

  function CanonicalMeter(m: MeterField): MeterField {
    m.(keyOrder := [])
  }

  function MeterAmount(metric: string, params: Params): Option<real> {
    if metric == "api_call_count" then Some(1.0)
    else if metric == "transaction_amount" && "amount" in params && params["amount"].Number? then
      Some(params["amount"].number)
    else None
  }

  predicate Evaluates(s: Scope, params: Params, ctx: Context) {
    match s
    case Allowlist(field, values) =>
      field in params && params[field].Text? && exists v :: v in values && MatchesCandidate(params[field].text, v)
    case NumericLimit(field, max, _) =>
      field !in params || params[field].Null? || (params[field].Number? && params[field].number <= max)
    case Temporal(notBefore, notAfter, recurring) =>
      && notBefore <= ctx.now < notAfter
      && (recurring.Some? ==> Active(recurring.value, ctx.local(recurring.value.timezone)))
    case Cumulative(m, max, window, _) =>
      && ctx.spent.Some? && m.source == "action_record" && MeterAmount(m.metric, params).Some?
      && ctx.spent.value(CanonicalMeter(m), window) + MeterAmount(m.metric, params).value <= max
    case Unknown(kind) => ctx.plugin(kind)
  }

  predicate Permits(caps: seq<Capability>, action: string, params: Params, ctx: Context) {
    HasAction(caps, action) && forall c :: c in caps && c.action == action ==> Evaluates(c.scope, params, ctx)
  }

  /** A candidate that starts with a star stands for every text that ends with the rest of it; any other, and the
      star alone, for itself. */
  lemma CandidateMeaning(actual: string, candidate: string)
    ensures |candidate| > 1 && candidate[0] == '*' ==>
      (MatchesCandidate(actual, candidate) <==> exists front :: actual == front + candidate[1..])
    ensures !(|candidate| > 1 && candidate[0] == '*') ==> (MatchesCandidate(actual, candidate) <==> actual == candidate)
  {
    if |candidate| > 1 && candidate[0] == '*' && MatchesCandidate(actual, candidate) {
      assert actual == actual[..|actual| - (|candidate| - 1)] + candidate[1..];
    }
  }

  /** What each scope asks of a request: one of the candidates, a bound on a number that is there and not null, the
      validity interval and an open window, the running total with this request's own share. */
  lemma EvaluatesMeaning(s: Scope, params: Params, ctx: Context)
    ensures s.Allowlist? ==>
      (Evaluates(s, params, ctx) <==>
        exists v :: v in s.values && s.field in params && params[s.field].Text? &&
          MatchesCandidate(params[s.field].text, v))
    ensures s.NumericLimit? && s.field !in params ==> Evaluates(s, params, ctx)
    ensures s.NumericLimit? && s.field in params ==> (
      Evaluates(s, params, ctx) <==>
        (params[s.field].Number? && params[s.field].number <= s.max) || params[s.field].Null?)
    ensures s.Temporal? ==> (
      Evaluates(s, params, ctx) <==>
        && s.notBefore <= ctx.now && ctx.now < s.notAfter
        && (s.recurring.None? || Active(s.recurring.value, ctx.local(s.recurring.value.timezone))))
    ensures s.Cumulative? && Evaluates(s, params, ctx) ==> (
      && ctx.spent.Some? && s.meterField.source == "action_record"
      && (s.meterField.metric == "api_call_count" || s.meterField.metric == "transaction_amount"))
    ensures s.Cumulative? && ctx.spent.Some? && s.meterField.source == "action_record" ==>
      var total := ctx.spent.value(s.meterField.(keyOrder := []), s.window);
      && (s.meterField.metric == "api_call_count" ==> (Evaluates(s, params, ctx) <==> total + 1.0 <= s.max))
      && (s.meterField.metric == "transaction_amount" ==>
          (Evaluates(s, params, ctx) <==>
            "amount" in params && params["amount"].Number? && total + params["amount"].number <= s.max))
  {
  }

  /** A pair of temporal scopes whose windows leak. */
  predicate LeakyPair(child: Scope, parent: Scope) {
    && child.Temporal? && parent.Temporal? && child.recurring.Some? && parent.recurring.Some?
    && Leaks(child.recurring.value, parent.recurring.value)
  }

  lemma EvaluationContained(child: Scope, parent: Scope, params: Params, ctx: Context)
    requires Narrows(child, parent) && !LeakyPair(child, parent) && ValidContext(ctx) && Evaluates(child, params, ctx)
    ensures Evaluates(parent, params, ctx)
  {
    match child
    case Allowlist(field, values) =>
      var v :| v in values && MatchesCandidate(params[field].text, v);
      assert v in parent.values;
    case Temporal(_, _, recurring) =>
      if parent.recurring.Some? {
        var local := ctx.local(recurring.value.timezone);
        LeakFree(recurring.value, parent.recurring.value, local.value);
      }
    case _ =>
  }
}
