// Policy evaluation, internal/iam/conditions.go, the policies a key resolves to,
// internal/s3/auth.go and internal/metadata/store.go, and the conversion of the shared key
// policy, internal/api/keys.go.

module IamPolicies {
  import opened Lists
  import Wildcards

  type Conditions = map<string, map<string, seq<string>>>

  datatype Effect = Allow | Deny | Other

  datatype Statement = Statement(effect: Effect, action: seq<string>, notAction: seq<string>,
    resource: seq<string>, notResource: seq<string>, condition: Conditions)

  datatype Request = Request(action: string, resource: string, ctx: map<string, string>)

  // Wildcard matching and the condition operators.
  datatype Env = Env(wild: (string, string) -> bool, known: string -> bool, op: (string, string, seq<string>) -> bool)

  predicate MatchesAny(env: Env, patterns: seq<string>, v: string) {
    exists p :: p in patterns && env.wild(p, v)
  }

  predicate Applies(env: Env, st: Statement, req: Request) {
    && (if st.notAction != [] then !MatchesAny(env, st.notAction, req.action)
        else MatchesAny(env, st.action, req.action))
    && (if st.notResource != [] then !MatchesAny(env, st.notResource, req.resource)
        else MatchesAny(env, st.resource, req.resource))
  }

  // Something in the block cannot be determined; something in it plainly fails.
  predicate Unproven(env: Env, c: Conditions, ctx: map<string, string>) {
    exists o :: o in c && (!env.known(o) || exists key :: key in c[o] && key !in ctx)
  }

  predicate Failing(env: Env, c: Conditions, ctx: map<string, string>) {
    exists o, key :: o in c && key in c[o] && env.known(o) && key in ctx && !env.op(o, ctx[key], c[o][key])
  }

  // What evaluating a block may answer. Maps are walked in any order, so a block in which
  // one condition fails and another is unproven may answer either way.
  predicate MayAnswer(env: Env, c: Conditions, ctx: map<string, string>, ok: bool, determined: bool) {
    if ok then determined && !Unproven(env, c, ctx) && !Failing(env, c, ctx)
    else if determined then Failing(env, c, ctx)
    else Unproven(env, c, ctx)
  }

  method EvaluateConditions(env: Env, c: Conditions, ctx: map<string, string>) returns (ok: bool, determined: bool)
    ensures MayAnswer(env, c, ctx, ok, determined)
    ensures ok ==> determined && forall o :: o in c ==> env.known(o)
    ensures ok ==> forall o, key :: o in c && key in c[o] ==> key in ctx && env.op(o, ctx[key], c[o][key])
    ensures determined && !ok ==>
      exists o, key :: o in c && key in c[o] && env.known(o) && key in ctx && !env.op(o, ctx[key], c[o][key])
    ensures !determined ==> exists o :: o in c && (!env.known(o) || exists key :: key in c[o] && key !in ctx)
  {
    var ops := c.Keys;
    while ops != {}
      invariant ops <= c.Keys
      invariant forall o :: o in c && o !in ops ==> env.known(o) && AllHold(env, o, c[o], c[o].Keys, ctx)
      decreases ops
    {
      var o :| o in ops;
      if !env.known(o) { return false, false; }
      var keys := c[o].Keys;
      while keys != {}
        invariant keys <= c[o].Keys && AllHold(env, o, c[o], c[o].Keys - keys, ctx)
        decreases keys
      {
        var key :| key in keys;
        if key !in ctx { return false, false; }
        if !env.op(o, ctx[key], c[o][key]) { return false, true; }
        keys := keys - {key};
      }
      assert c[o].Keys - keys == c[o].Keys;
      ops := ops - {o};
    }
    return true, true;
  }

  predicate AllHold(env: Env, o: string, kvs: map<string, seq<string>>, keys: set<string>, ctx: map<string, string>) {
    forall key :: key in keys && key in kvs ==> key in ctx && env.op(o, ctx[key], kvs[key])
  }

  // What one statement says about a request.
  datatype Word = Skip | Grant | Refuse

  function Reading(e: Effect, ok: bool, determined: bool): Word {
    if !determined then if e.Deny? then Refuse else Skip
    else if !ok then Skip
    else match e case Deny => Refuse case Allow => Grant case Other => Skip
  }

  predicate Says(env: Env, st: Statement, req: Request, w: Word) {
    if !Applies(env, st, req) then w == Skip
    else exists ok, determined {:trigger Reading(st.effect, ok, determined)} ::
      MayAnswer(env, st.condition, req.ctx, ok, determined) && w == Reading(st.effect, ok, determined)
  }

  // The decisions a pass over the statements in order may reach, having seen an Allow or not.
  predicate Decides(env: Env, sts: seq<Statement>, req: Request, hasAllow: bool, allowed: bool, denied: bool)
    decreases |sts|
  {
    if sts == [] then allowed == hasAllow && !denied
    else
      || (Says(env, sts[0], req, Refuse) && !allowed && denied)
      || (exists w {:trigger Says(env, sts[0], req, w)} ::
           w != Refuse && Says(env, sts[0], req, w) &&
             Decides(env, sts[1..], req, hasAllow || w == Grant, allowed, denied))
  }

  // The same, from the set of statements alone.
  ghost predicate Outcome(env: Env, sts: set<Statement>, req: Request, hasAllow: bool, allowed: bool, denied: bool) {
    if denied then !allowed && exists st :: st in sts && Says(env, st, req, Refuse)
    else
      && (forall st :: st in sts ==> CanPass(env, st, req))
      && (allowed <==> hasAllow || exists st :: st in sts && Says(env, st, req, Grant))
  }

  ghost predicate CanPass(env: Env, st: Statement, req: Request) {
    Says(env, st, req, Skip) || Says(env, st, req, Grant)
  }

  // Every statement says something, and one that grants says nothing else.
  lemma SaysSomething(env: Env, st: Statement, req: Request)
    ensures Says(env, st, req, Refuse) || CanPass(env, st, req)
    ensures Says(env, st, req, Grant) ==> !Says(env, st, req, Skip) && !Says(env, st, req, Refuse)
  {
    var ok, determined := EvaluateSome(env, st.condition, req.ctx);
    assert Applies(env, st, req) ==> Says(env, st, req, Reading(st.effect, ok, determined));
  }

  lemma EvaluateSome(env: Env, c: Conditions, ctx: map<string, string>) returns (ok: bool, determined: bool)
    ensures MayAnswer(env, c, ctx, ok, determined)
  {
    if Unproven(env, c, ctx) { return false, false; }
    if Failing(env, c, ctx) { return false, true; }
    return true, true;
  }

  lemma {:induction false} DecidesBySet(env: Env, sts: seq<Statement>, req: Request, hasAllow: bool, allowed: bool,
                                        denied: bool)
    ensures Decides(env, sts, req, hasAllow, allowed, denied) <==>
      Outcome(env, SetOf(sts), req, hasAllow, allowed, denied)
    decreases |sts|
  {
    hide Says;
    if sts != [] {
      var st, rest := sts[0], sts[1..];
      assert sts == [st] + rest;
      SaysSomething(env, st, req);
      DecidesBySet(env, rest, req, hasAllow, allowed, denied);
      DecidesBySet(env, rest, req, true, allowed, denied);
      assert SetOf(sts) == {st} + SetOf(rest);
      Unfold(env, sts, req, hasAllow, allowed, denied);
    }
  }

  lemma Unfold(env: Env, sts: seq<Statement>, req: Request, hasAllow: bool, allowed: bool, denied: bool)
    requires sts != []
    ensures Decides(env, sts, req, hasAllow, allowed, denied) <==>
      || (Says(env, sts[0], req, Refuse) && !allowed && denied)
      || (Says(env, sts[0], req, Skip) && Decides(env, sts[1..], req, hasAllow, allowed, denied))
      || (Says(env, sts[0], req, Grant) && Decides(env, sts[1..], req, true, allowed, denied))
  {
    hide Says;
  }

  function Flat(policies: seq<seq<Statement>>): seq<Statement> {
    if policies == [] then [] else policies[0] + Flat(policies[1..])
  }

  // Order, repetition and the division into policies do not matter: the possible decisions
  // depend on the set of statements only.
  lemma OnlyTheSetMatters(env: Env, p: seq<seq<Statement>>, q: seq<seq<Statement>>, req: Request, allowed: bool,
                          denied: bool)
    requires SetOf(Flat(p)) == SetOf(Flat(q))
    ensures Decides(env, Flat(p), req, false, allowed, denied) <==> Decides(env, Flat(q), req, false, allowed, denied)
  {
    DecidesBySet(env, Flat(p), req, false, allowed, denied);
    DecidesBySet(env, Flat(q), req, false, allowed, denied);
  }

  // A Deny that applies and whose block both fails and is unproven, as far as can be told.
  ghost predicate Mixed(env: Env, st: Statement, req: Request) {
    Applies(env, st, req) && st.effect.Deny? && Unproven(env, st.condition, req.ctx) &&
      Failing(env, st.condition, req.ctx)
  }

  // Both a refusal by Deny and another answer are possible.
  ghost predicate TwoAnswers(env: Env, sts: seq<Statement>, req: Request) {
    && Decides(env, sts, req, false, false, true)
    && (Decides(env, sts, req, false, true, false) || Decides(env, sts, req, false, false, false))
  }

  // That is so exactly when some applicable Deny is mixed and no applicable Deny has a block
  // without a failing condition.
  lemma WhenTwoAnswers(env: Env, sts: seq<Statement>, req: Request)
    ensures TwoAnswers(env, sts, req) <==>
      && (exists st :: st in sts && Mixed(env, st, req))
      && (forall st :: st in sts && Applies(env, st, req) && st.effect.Deny? ==> Failing(env, st.condition, req.ctx))
  {
    hide Says, Decides, Applies, Unproven, Failing, CanPass;
    DecidesBySet(env, sts, req, false, false, true);
    DecidesBySet(env, sts, req, false, true, false);
    DecidesBySet(env, sts, req, false, false, false);
    forall st { WhatDenySays(env, st, req); }
    if TwoAnswers(env, sts, req) {
      var st :| st in SetOf(sts) && Says(env, st, req, Refuse);
      assert CanPass(env, st, req);
      assert st in sts && Mixed(env, st, req);
      forall x | x in sts && Applies(env, x, req) && x.effect.Deny?
        ensures Failing(env, x.condition, req.ctx)
      {
        assert x in SetOf(sts) && CanPass(env, x, req);
      }
    } else if exists st :: st in sts && Mixed(env, st, req) {
      var st :| st in sts && Mixed(env, st, req);
      assert st in SetOf(sts) && Says(env, st, req, Refuse);
    }
  }

  lemma WhatDenySays(env: Env, st: Statement, req: Request)
    ensures Says(env, st, req, Refuse) <==>
      Applies(env, st, req) && st.effect.Deny? &&
        (Unproven(env, st.condition, req.ctx) || !Failing(env, st.condition, req.ctx))
    ensures !CanPass(env, st, req) <==> Applies(env, st, req) && st.effect.Deny? && !Failing(env, st.condition, req.ctx)
  {
    hide Applies, Unproven, Failing;
    var e := st.effect;
    assert Reading(e, false, false) == if e.Deny? then Refuse else Skip;
    assert Reading(e, false, true) == Skip;
    assert Reading(e, true, true) == if e.Deny? then Refuse else if e.Allow? then Grant else Skip;
  }

  method EvaluateDetailed(env: Env, policies: seq<seq<Statement>>, req: Request) returns (allowed: bool, denied: bool)
    ensures Decides(env, Flat(policies), req, false, allowed, denied)
  {
    hide Says, Decides;
    var hasAllow := false;
    var i := 0;
    while i < |policies|
      invariant 0 <= i <= |policies|
      invariant Onward(env, Flat(policies[i..]), req, hasAllow, Flat(policies))
    {
      var stmts, j := policies[i], 0;
      ghost var later := Flat(policies[i + 1..]);
      assert policies[i..][1..] == policies[i + 1..];
      assert stmts[0..] == stmts;
      while j < |stmts|
        invariant 0 <= j <= |stmts|
        invariant Onward(env, stmts[j..] + later, req, hasAllow, Flat(policies))
      {
        ghost var rest := stmts[j..] + later;
        assert rest[0] == stmts[j] && rest[1..] == stmts[j + 1..] + later;
        var w := Judge(env, stmts[j], req);
        OnwardStep(env, rest, req, hasAllow, w, Flat(policies));
        if w == Refuse { return false, true; }
        hasAllow := hasAllow || w == Grant;
        j := j + 1;
      }
      assert stmts[j..] + later == later;
      i := i + 1;
    }
    DecidesNone(env, req, hasAllow);
    return hasAllow, false;
  }

  // Whatever the rest may decide, the whole may decide.
  ghost predicate Onward(env: Env, rest: seq<Statement>, req: Request, hasAllow: bool, all: seq<Statement>) {
    forall a, d :: Decides(env, rest, req, hasAllow, a, d) ==> Decides(env, all, req, false, a, d)
  }

  lemma OnwardStep(env: Env, rest: seq<Statement>, req: Request, hasAllow: bool, w: Word, all: seq<Statement>)
    requires rest != [] && Onward(env, rest, req, hasAllow, all) && Says(env, rest[0], req, w)
    ensures w == Refuse ==> Decides(env, all, req, false, false, true)
    ensures w != Refuse ==> Onward(env, rest[1..], req, hasAllow || w == Grant, all)
  {
    hide Says;
    forall a, d { Unfold(env, rest, req, hasAllow, a, d); }
  }

  lemma DecidesNone(env: Env, req: Request, hasAllow: bool)
    ensures Decides(env, [], req, hasAllow, hasAllow, false)
  {
  }

  // --- the decision in terms of the patterns and conditions as written ---

  // The request is within the statement: every list that counts is spelt out. A list of
  // exceptions counts instead of the plain list unless it is empty.
  ghost predicate Covers(env: Env, st: Statement, req: Request) {
    && (st.notAction == [] ==> exists i :: 0 <= i < |st.action| && env.wild(st.action[i], req.action))
    && (forall i :: 0 <= i < |st.notAction| ==> !env.wild(st.notAction[i], req.action))
    && (st.notResource == [] ==> exists i :: 0 <= i < |st.resource| && env.wild(st.resource[i], req.resource))
    && (forall i :: 0 <= i < |st.notResource| ==> !env.wild(st.notResource[i], req.resource))
  }

  lemma AppliesExactly(env: Env, st: Statement, req: Request)
    ensures Applies(env, st, req) <==> Covers(env, st, req)
  {
    AnyOrNone(env, st.action, req.action);
    AnyOrNone(env, st.notAction, req.action);
    AnyOrNone(env, st.resource, req.resource);
    AnyOrNone(env, st.notResource, req.resource);
  }

  lemma AnyOrNone(env: Env, ps: seq<string>, v: string)
    ensures MatchesAny(env, ps, v) <==> exists i :: 0 <= i < |ps| && env.wild(ps[i], v)
  {
    if MatchesAny(env, ps, v) {
      var p :| p in ps && env.wild(p, v);
      var i :| 0 <= i < |ps| && ps[i] == p;
    }
  }

  // Every condition is known to hold.
  ghost predicate Met(env: Env, c: Conditions, ctx: map<string, string>) {
    forall o :: o in c ==> env.known(o) && forall key :: key in c[o] ==> key in ctx && env.op(o, ctx[key], c[o][key])
  }

  // Every decision: a refusal by Deny comes from a Deny that covers the request and whose
  // conditions hold or cannot be told; without one every Deny that covers the request has a
  // condition that fails, and the request is allowed exactly if an Allow covers it whose
  // conditions all hold.
  lemma DecisionExactly(env: Env, sts: seq<Statement>, req: Request, allowed: bool, denied: bool)
    ensures Decides(env, sts, req, false, allowed, denied) <==>
      if denied then !allowed && exists st ::
        st in sts && st.effect.Deny? && Covers(env, st, req) &&
          (Met(env, st.condition, req.ctx) || Unproven(env, st.condition, req.ctx))
      else
        && (forall st :: st in sts && st.effect.Deny? && Covers(env, st, req) ==> Failing(env, st.condition, req.ctx))
        && (allowed <==> exists st ::
             st in sts && st.effect.Allow? && Covers(env, st, req) && Met(env, st.condition, req.ctx))
  {
    hide Says, Decides, Applies, CanPass, Met, Unproven, Failing, Covers;
    DecidesBySet(env, sts, req, false, allowed, denied);
    forall st { WhatIsSaid(env, st, req); }
    assert forall st :: st in SetOf(sts) <==> st in sts;
  }

  lemma WhatIsSaid(env: Env, st: Statement, req: Request)
    ensures Says(env, st, req, Refuse) <==>
      st.effect.Deny? && Covers(env, st, req) &&
        (Met(env, st.condition, req.ctx) || Unproven(env, st.condition, req.ctx))
    ensures !CanPass(env, st, req) <==>
      st.effect.Deny? && Covers(env, st, req) && !Failing(env, st.condition, req.ctx)
    ensures Says(env, st, req, Grant) <==>
      st.effect.Allow? && Covers(env, st, req) && Met(env, st.condition, req.ctx)
  {
    hide Says, Applies, CanPass, Met, Unproven, Failing, Covers;
    AppliesExactly(env, st, req);
    WhatDenySays(env, st, req);
    WhatAllowSays(env, st, req);
    MetExactly(env, st.condition, req.ctx);
  }

  lemma MetExactly(env: Env, c: Conditions, ctx: map<string, string>)
    ensures Met(env, c, ctx) <==> !Unproven(env, c, ctx) && !Failing(env, c, ctx)
  {
  }

  lemma WhatAllowSays(env: Env, st: Statement, req: Request)
    ensures Says(env, st, req, Grant) <==>
      Applies(env, st, req) && st.effect.Allow? &&
        !Unproven(env, st.condition, req.ctx) && !Failing(env, st.condition, req.ctx)
  {
    hide Applies, Unproven, Failing;
    var e := st.effect;
    assert Reading(e, true, true) == if e.Deny? then Refuse else if e.Allow? then Grant else Skip;
  }

  // The evaluation with the matcher, and with patterns that match what they are meant to.
  function Implemented(env: Env): Env { env.(wild := (p: string, v: string) => Wildcards.Matches(p, v)) }

  function Documented(env: Env): Env { env.(wild := (p: string, v: string) => Wildcards.Meant(p, v)) }

  // A statement covers the same requests either way if no star stands in the request's action
  // and resource, and whatever lists of patterns it has, exactly then.
  lemma CoversAsDocumented(env: Env, req: Request)
    ensures (forall st :: Covers(Implemented(env), st, req) <==> Covers(Documented(env), st, req)) <==>
      '*' !in req.action && '*' !in req.resource
  {
    if '*' !in req.action && '*' !in req.resource {
      Wildcards.ValueExactly(req.action);
      Wildcards.ValueExactly(req.resource);
      forall st ensures Covers(Implemented(env), st, req) <==> Covers(Documented(env), st, req) {
        SameCover(Implemented(env), Documented(env), st, req);
      }
    } else if '*' in req.action {
      var p := Wildcards.MissedByPattern(req.action);
      var st := Statement(Allow, [p], [], ["*"], [], map[]);
      Wildcards.StarMatchesAll(req.resource);
      OnlyPatterns(Implemented(env), st, req);
      OnlyPatterns(Documented(env), st, req);
    } else {
      var p := Wildcards.MissedByPattern(req.resource);
      var st := Statement(Allow, ["*"], [], [p], [], map[]);
      Wildcards.StarMatchesAll(req.action);
      OnlyPatterns(Implemented(env), st, req);
      OnlyPatterns(Documented(env), st, req);
    }
  }

  lemma OnlyPatterns(env: Env, st: Statement, req: Request)
    requires |st.action| == 1 && |st.resource| == 1 && st.notAction == [] && st.notResource == []
    ensures Covers(env, st, req) <==> env.wild(st.action[0], req.action) && env.wild(st.resource[0], req.resource)
  {
  }

  lemma SameCover(a: Env, b: Env, st: Statement, req: Request)
    requires forall p :: a.wild(p, req.action) == b.wild(p, req.action)
    requires forall p :: a.wild(p, req.resource) == b.wild(p, req.resource)
    ensures Covers(a, st, req) <==> Covers(b, st, req)
  {
    assert forall i :: 0 <= i < |st.action| ==> a.wild(st.action[i], req.action) == b.wild(st.action[i], req.action);
    assert forall i :: 0 <= i < |st.resource| ==>
      a.wild(st.resource[i], req.resource) == b.wild(st.resource[i], req.resource);
  }

  // Such a request is decided as documented, whatever the policies.
  lemma DecidedAsDocumented(env: Env, sts: seq<Statement>, req: Request, allowed: bool, denied: bool)
    requires '*' !in req.action && '*' !in req.resource
    ensures Decides(Implemented(env), sts, req, false, allowed, denied) <==>
      Decides(Documented(env), sts, req, false, allowed, denied)
  {
    hide Covers, Decides;
    var a, b := Implemented(env), Documented(env);
    CoversAsDocumented(env, req);
    DecisionExactly(a, sts, req, allowed, denied);
    DecisionExactly(b, sts, req, allowed, denied);
    forall st: Statement ensures Met(a, st.condition, req.ctx) == Met(b, st.condition, req.ctx) {}
    forall st: Statement ensures Unproven(a, st.condition, req.ctx) == Unproven(b, st.condition, req.ctx) {}
    forall st: Statement ensures Failing(a, st.condition, req.ctx) == Failing(b, st.condition, req.ctx) {}
  }

  // One statement without conditions.
  method EvaluatePlain(env: Env, st: Statement, req: Request) returns (allowed: bool, denied: bool)
    requires st.condition == map[]
    ensures st.notAction != [] && st.notResource == [] ==> (allowed <==>
      && st.effect == Allow && (forall p :: p in st.notAction ==> !env.wild(p, req.action))
      && exists p :: p in st.resource && env.wild(p, req.resource))
    ensures st.notAction != [] && st.notResource != [] ==> (allowed <==>
      && st.effect == Allow && (forall p :: p in st.notAction ==> !env.wild(p, req.action))
      && forall p :: p in st.notResource ==> !env.wild(p, req.resource))
    ensures st.notAction == [] && st.notResource != [] ==> (allowed <==>
      && st.effect == Allow && (exists p :: p in st.action && env.wild(p, req.action))
      && forall p :: p in st.notResource ==> !env.wild(p, req.resource))
    ensures st.notAction == [] && st.notResource == [] ==> (allowed <==>
      && st.effect == Allow && (exists p :: p in st.action && env.wild(p, req.action))
      && exists p :: p in st.resource && env.wild(p, req.resource))
    ensures denied <==> st.effect == Deny && Covers(env, st, req)
    ensures st.action == [] && st.notAction == [] ==> !allowed && !denied
    ensures st.resource == [] && st.notResource == [] ==> !allowed && !denied
  {
    allowed, denied := EvaluateDetailed(env, [[st]], req);
    assert Flat([[st]][1..]) == [] && Flat([[st]]) == [st];
    DecisionExactly(env, [st], req, allowed, denied);
    AppliesExactly(env, st, req);
    assert Met(env, st.condition, req.ctx) && !Failing(env, st.condition, req.ctx);
    assert st in [st];
  }

  // One statement that covers the request, with one condition: on an operator that is not
  // known or a key without a value an Allow does not grant and a Deny refuses, else the
  // operator decides.
  method EvaluateConditional(env: Env, st: Statement, req: Request, o: string, key: string, vs: seq<string>)
    returns (allowed: bool, denied: bool)
    requires st.condition == map[o := map[key := vs]] && Covers(env, st, req)
    ensures !env.known(o) || key !in req.ctx ==> !allowed && (denied <==> st.effect == Deny)
    ensures env.known(o) && key in req.ctx ==>
      && (allowed <==> st.effect == Allow && env.op(o, req.ctx[key], vs))
      && (denied <==> st.effect == Deny && env.op(o, req.ctx[key], vs))
  {
    allowed, denied := EvaluateDetailed(env, [[st]], req);
    assert Flat([[st]][1..]) == [] && Flat([[st]]) == [st];
    DecisionExactly(env, [st], req, allowed, denied);
    OneCondition(env, st.condition, req.ctx, o, key, vs);
    assert st in [st];
  }

  lemma OneCondition(env: Env, c: Conditions, ctx: map<string, string>, o: string, key: string, vs: seq<string>)
    requires c == map[o := map[key := vs]]
    ensures Unproven(env, c, ctx) <==> !env.known(o) || key !in ctx
    ensures Failing(env, c, ctx) <==> env.known(o) && key in ctx && !env.op(o, ctx[key], vs)
    ensures Met(env, c, ctx) <==> env.known(o) && key in ctx && env.op(o, ctx[key], vs)
  {
    assert o in c && c[o] == map[key := vs] && key in c[o];
  }

  method Judge(env: Env, st: Statement, req: Request) returns (w: Word)
    ensures Says(env, st, req, w)
  {
    if |st.notAction| > 0 {
      if MatchesAny(env, st.notAction, req.action) { return Skip; }
    } else if !MatchesAny(env, st.action, req.action) {
      return Skip;
    }
    if |st.notResource| > 0 {
      if MatchesAny(env, st.notResource, req.resource) { return Skip; }
    } else if !MatchesAny(env, st.resource, req.resource) {
      return Skip;
    }
    var ok, determined := true, true;
    if |st.condition| > 0 {
      ok, determined := EvaluateConditions(env, st.condition, req.ctx);
    }
    w := Reading(st.effect, ok, determined);
  }
}

/** The identity store, the policies a key resolves to, and the conversion of a user's shared
    key policy into one policy per key. */
module KeyPolicies {
  import opened Wrappers
  import opened Lists
  import opened IamPolicies
  import Wildcards

  // A stored policy cannot be read, or is a document that parses or does not.
  datatype Record = Unreadable | Document(parsed: Option<seq<Statement>>)

  datatype User = User(policies: seq<string>, groups: seq<string>, cidrs: seq<string>, keyManaged: bool)

  // `source` names the user a temporary session was issued for.
  datatype Key = Key(user: string, source: string, policy: string)

  datatype Db = Db(users: map<string, User>, groups: map<string, Option<seq<string>>>,
    policies: map<string, Record>, keys: map<string, Key>)

  function KeyPolicy(id: string): string { "access-key-" + id }

  function Legacy(user: string): string { "key-policy-" + user }

  lemma NamesApart(a: string, b: string, user: string)
    ensures KeyPolicy(a) != Legacy(user) && KeyPolicy(a) != ""
    ensures KeyPolicy(a) == KeyPolicy(b) ==> a == b
  {
    assert KeyPolicy(a)[0] == 'a' && Legacy(user)[0] == 'k';
    assert KeyPolicy(a)[|"access-key-"|..] == a && KeyPolicy(b)[|"access-key-"|..] == b;
  }

  function Lookup(d: Db, n: string): Option<Record> {
    if n in d.policies then Some(d.policies[n]) else None
  }

  ghost predicate AllReadable(d: Db) {
    forall n :: Lookup(d, n) != Some(Unreadable)
  }

  // The policy names of a user, its own and its groups'. A missing group is skipped.
  ghost function Names(d: Db, u: User): set<string> {
    SetOf(u.policies) + GroupNames(d.groups, u.groups)
  }

  ghost function GroupNames(groups: map<string, Option<seq<string>>>, gs: seq<string>): set<string> {
    set g, n | g in gs && g in groups && groups[g].Some? && n in groups[g].value :: n
  }

  ghost predicate BrokenGroup(groups: map<string, Option<seq<string>>>, gs: seq<string>) {
    exists g :: g in gs && g in groups && groups[g].None?
  }

  // The statements of a record, none when it is missing or unusable.
  function Body(r: Option<Record>): set<Statement> {
    if r.Some? && r.value.Document? && r.value.parsed.Some? then SetOf(r.value.parsed.value) else {}
  }

  predicate Unparsed(r: Option<Record>) { r.Some? && r.value.Document? && r.value.parsed.None? }

  predicate Unusable(r: Option<Record>) { r.Some? && (r.value.Unreadable? || r.value.parsed.None?) }

  ghost function Bodies(d: Db, ns: set<string>): set<Statement> {
    set n, st | n in ns && st in Body(Lookup(d, n)) :: st
  }

  ghost predicate AnyUnusable(d: Db, ns: set<string>) {
    exists n :: n in ns && Unusable(Lookup(d, n))
  }

  // The policies of a user as an authorization sees them: refused outright when any of them
  // cannot be used, else the statements of all of them.
  ghost predicate UserFails(d: Db, name: string) {
    name !in d.users || BrokenGroup(d.groups, d.users[name].groups)
    || AnyUnusable(d, Names(d, d.users[name]))
  }

  ghost function UserStatements(d: Db, name: string): set<Statement> {
    if name in d.users then Bodies(d, Names(d, d.users[name])) else {}
  }

  // A session speaks for the user it was issued for, any other key for its own user.
  function Holder(k: Key): string { if k.source != "" then k.source else k.user }

  // A key that is not a session adds the policy it was issued with.
  function Own(d: Db, k: Key): Option<Record> {
    if k.source == "" && k.user in d.users && k.policy != "" then Lookup(d, k.policy) else None
  }

  ghost predicate Fails(d: Db, k: Key) {
    Holder(k) != "" && (UserFails(d, Holder(k)) || Unparsed(Own(d, k)))
  }

  ghost function Statements(d: Db, k: Key): set<Statement> {
    if Holder(k) == "" then {} else UserStatements(d, Holder(k)) + Body(Own(d, k))
  }

  // A policy attached to a user, or to a group of the user that can be read.
  ghost predicate Reaches(d: Db, h: string, n: string) {
    h in d.users &&
      (n in d.users[h].policies ||
       exists g :: g in d.users[h].groups && g in d.groups && d.groups[g].Some? && n in d.groups[g].value)
  }

  // Whose policies count: a session has those of its source alone, another key those of its
  // user and the one it was issued with. A statement counts if it stands in one of them.
  lemma AccessExactly(d: Db, k: Key, st: Statement)
    ensures k.source != "" ==> (st in Statements(d, k) <==>
      exists n :: Reaches(d, k.source, n) && n in d.policies && Stands(d.policies[n], st))
    ensures k.source == "" && k.user !in d.users ==> st !in Statements(d, k)
    ensures k.source == "" && k.user != "" && k.user in d.users ==> (st in Statements(d, k) <==>
      exists n :: (Reaches(d, k.user, n) || (k.policy != "" && n == k.policy)) &&
        n in d.policies && Stands(d.policies[n], st))
  {
    if Holder(k) in d.users {
      forall n { NamesExactly(d, Holder(k), n); }
      forall n | n in d.policies ensures st in Body(Lookup(d, n)) <==> Stands(d.policies[n], st) {}
      var ns := Names(d, d.users[Holder(k)]);
      assert st in Bodies(d, ns) <==> exists n :: n in ns && st in Body(Lookup(d, n));
    }
  }

  ghost predicate Stands(r: Record, st: Statement) {
    r.Document? && r.parsed.Some? && st in r.parsed.value
  }

  lemma NamesExactly(d: Db, h: string, n: string)
    requires h in d.users
    ensures n in Names(d, d.users[h]) <==> Reaches(d, h, n)
  {
  }

  // Who is refused outright: a key whose user is missing, has a group that cannot be read or a
  // policy that cannot be read or parsed, and a key whose own policy cannot be parsed.
  lemma RefusalExactly(d: Db, k: Key)
    ensures Fails(d, k) <==> (var h := if k.source != "" then k.source else k.user;
      h != "" && (
      || h !in d.users
      || (exists g :: g in d.users[h].groups && g in d.groups && d.groups[g].None?)
      || (exists n :: Reaches(d, h, n) && n in d.policies && (d.policies[n].Unreadable? || d.policies[n].parsed.None?))
      || (k.source == "" && k.policy != "" && k.policy in d.policies && d.policies[k.policy] == Document(None))))
  {
    if Holder(k) in d.users {
      forall n { NamesExactly(d, Holder(k), n); }
    }
  }

  // An identity is refused outright, or decided on its policies, loaded in some order.
  ghost predicate Authorizes(env: Env, fails: bool, statements: set<Statement>, loaded: seq<seq<Statement>>,
                             req: Request, allowed: bool, denied: bool)
    requires SetOf(Flat(loaded)) == statements
  {
    if fails then !allowed else Decides(env, Flat(loaded), req, false, allowed, denied)
  }

  // The same key has the same decisions in both stores.
  ghost predicate SameAccess(d: Db, e: Db, id: string)
  {
    && id in d.keys && id in e.keys
    && Fails(d, d.keys[id]) == Fails(e, e.keys[id])
    && (Fails(d, d.keys[id]) || Statements(d, d.keys[id]) == Statements(e, e.keys[id]))
  }

  lemma SameDecisions(env: Env, d: Db, e: Db, id: string, before: seq<seq<Statement>>, after: seq<seq<Statement>>,
                      req: Request, allowed: bool, denied: bool)
    requires SameAccess(d, e, id)
    requires SetOf(Flat(before)) == Statements(d, d.keys[id]) && SetOf(Flat(after)) == Statements(e, e.keys[id])
    ensures Authorizes(env, Fails(d, d.keys[id]), Statements(d, d.keys[id]), before, req, allowed, denied)
       <==> Authorizes(env, Fails(e, e.keys[id]), Statements(e, e.keys[id]), after, req, allowed, denied)
  {
    if !Fails(d, d.keys[id]) { OnlyTheSetMatters(env, before, after, req, allowed, denied); }
  }

  // The keys of a user that still depend on the shared policy.
  ghost predicate Pending(d: Db, user: string, id: string) {
    id in d.keys && d.keys[id].user == user && d.keys[id].policy == ""
  }

  ghost predicate Attached(d: Db, user: string) {
    user in d.users && Legacy(user) in d.users[user].policies
  }

  // While the shared policy is attached: some pending keys have been given their copy, the
  // copy written first.
  ghost predicate Copying(d: Db, e: Db, user: string) {
    && e.users == d.users && e.groups == d.groups && e.keys.Keys == d.keys.Keys
    && (forall id :: id in d.keys ==> e.keys[id] == d.keys[id] || (Pending(d, user, id) && Given(d, e, user, id)))
    && (forall n :: Lookup(e, n) == Lookup(d, n) || Copy(d, e, user, n))
  }

  ghost predicate Given(d: Db, e: Db, user: string, id: string) {
    && id in d.keys && id in e.keys && e.keys[id] == d.keys[id].(policy := KeyPolicy(id))
    && Legacy(user) in d.policies && Lookup(e, KeyPolicy(id)) == Lookup(d, Legacy(user))
  }

  ghost predicate Copy(d: Db, e: Db, user: string, n: string) {
    && Legacy(user) in d.policies && Lookup(e, n) == Lookup(d, Legacy(user))
    && exists id :: Pending(d, user, id) && n == KeyPolicy(id)
  }

  ghost predicate AllGiven(d: Db, e: Db, user: string) {
    Legacy(user) in d.policies ==> forall id :: Pending(d, user, id) ==> Given(d, e, user, id)
  }

  // The end: the user is detached from the shared policy, and that policy may be gone.
  ghost predicate Detached(d: Db, e: Db, user: string) {
    && user in d.users && e.users == d.users[user := Detach(d.users[user], user)]
    && e.groups == d.groups && e.keys == d.keys
    && (forall n :: n != Legacy(user) ==> Lookup(e, n) == Lookup(d, n))
    && (Lookup(e, Legacy(user)) == Lookup(d, Legacy(user)) || Lookup(e, Legacy(user)) == None)
  }

  predicate KeyManaged(u: User, name: string) {
    u.keyManaged || (u.policies == [Legacy(name)] && u.groups == [] && u.cidrs == [])
  }

  function Detach(u: User, name: string): User {
    u.(keyManaged := KeyManaged(u, name), policies := Without(u.policies, Legacy(name)))
  }

  // Wherever a conversion may stop.
  ghost predicate Stopped(d: Db, e: Db, user: string) {
    Copying(d, e, user) || exists m :: Converted(d, m, user) && Detached(m, e, user)
  }

  ghost predicate Converted(d: Db, m: Db, user: string) {
    Copying(d, m, user) && AllGiven(d, m, user) && Lookup(d, Legacy(user)) != Some(Unreadable)
  }

  lemma LegacyKept(d: Db, e: Db, user: string)
    requires Copying(d, e, user)
    ensures Lookup(e, Legacy(user)) == Lookup(d, Legacy(user))
  {
    if Copy(d, e, user, Legacy(user)) {
      var id :| Pending(d, user, id) && Legacy(user) == KeyPolicy(id);
      NamesApart(id, id, user);
    }
  }

  lemma CopyingReadable(d: Db, e: Db, user: string)
    requires Copying(d, e, user)
    ensures AllReadable(d) ==> AllReadable(e)
  {
  }

  // --- any number of attempts are one ---

  lemma CopyingOn(d: Db, e: Db, f: Db, user: string)
    requires Copying(d, e, user) && Copying(e, f, user)
    ensures Copying(d, f, user)
  {
    LegacyKept(d, e, user);
    LegacyKept(e, f, user);
    forall id | id in d.keys ensures f.keys[id] == d.keys[id] || (Pending(d, user, id) && Given(d, f, user, id)) {
      if e.keys[id] != d.keys[id] { StaysGiven(d, e, f, user, id); }
    }
    forall n ensures Lookup(f, n) == Lookup(d, n) || Copy(d, f, user, n) { CopyOn(d, e, f, user, n); }
  }

  // A key that has its copy keeps it.
  lemma StaysGiven(d: Db, e: Db, f: Db, user: string, id: string)
    requires Copying(d, e, user) && Copying(e, f, user) && Given(d, e, user, id)
    ensures Given(d, f, user, id)
  {
    LegacyKept(d, e, user);
    NamesApart(id, id, user);
    assert !Pending(e, user, id);
    assert Lookup(f, KeyPolicy(id)) == Lookup(e, KeyPolicy(id)) || Copy(e, f, user, KeyPolicy(id));
  }

  lemma CopyOn(d: Db, e: Db, f: Db, user: string, n: string)
    requires Copying(d, e, user) && Copying(e, f, user)
    ensures Lookup(f, n) == Lookup(d, n) || Copy(d, f, user, n)
  {
    LegacyKept(d, e, user);
    if Copy(e, f, user, n) {
      var id :| Pending(e, user, id) && n == KeyPolicy(id);
      NamesApart(id, id, user);
      assert Pending(d, user, id);
    }
  }

  lemma StoppedOn(d: Db, e: Db, f: Db, user: string)
    requires Copying(d, e, user) && Stopped(e, f, user)
    ensures Stopped(d, f, user)
  {
    hide Copying, AllGiven;
    if Copying(e, f, user) {
      CopyingOn(d, e, f, user);
    } else {
      var m :| Converted(e, m, user) && Detached(m, f, user);
      ConvertedOn(d, e, m, user);
    }
  }

  lemma ConvertedOn(d: Db, e: Db, m: Db, user: string)
    requires Copying(d, e, user) && Converted(e, m, user)
    ensures Converted(d, m, user)
  {
    LegacyKept(d, e, user);
    CopyingOn(d, e, m, user);
    forall id | Legacy(user) in d.policies && Pending(d, user, id) ensures Given(d, m, user, id) {
      if e.keys[id] == d.keys[id] {
        assert Pending(e, user, id) && Given(e, m, user, id);
      } else {
        StaysGiven(d, e, m, user, id);
      }
    }
  }

  ghost predicate Attempt(d: Db, e: Db, user: string) {
    if Attached(d, user) then Stopped(d, e, user) else e == d
  }

  ghost predicate Attempts(ds: seq<Db>, user: string) {
    ds != [] && forall i :: 0 <= i < |ds| - 1 ==> Attempt(ds[i], ds[i + 1], user)
  }

  // However often the conversion is tried, and wherever each attempt stops, the store is
  // where a single attempt could have stopped.
  lemma {:induction false} AttemptsAreOne(ds: seq<Db>, user: string)
    requires Attempts(ds, user) && Attached(ds[0], user)
    ensures Stopped(ds[0], ds[|ds| - 1], user)
  {
    hide Stopped, Attached;
    if |ds| == 1 {
      NothingDone(ds[0], user);
    } else {
      var front := ds[..|ds| - 1];
      forall i | 0 <= i < |front| - 1 ensures Attempt(front[i], front[i + 1], user) {
        assert Attempt(ds[i], ds[i + 1], user);
      }
      AttemptsAreOne(front, user);
      var d, e := ds[|ds| - 2], ds[|ds| - 1];
      assert Attempt(d, ds[|ds| - 2 + 1], user);
      if Attached(d, user) {
        StillCopying(ds[0], d, user);
        StoppedOn(ds[0], d, e, user);
      }
    }
  }

  lemma NothingDone(d: Db, user: string)
    ensures Stopped(d, d, user)
  {
    assert Copying(d, d, user);
  }

  lemma StillCopying(d: Db, e: Db, user: string)
    requires Stopped(d, e, user) && Attached(e, user)
    ensures Copying(d, e, user)
  {
    if !Copying(d, e, user) {
      var m :| Converted(d, m, user) && Detached(m, e, user);
      WithoutMembers(m.users[user].policies, Legacy(user));
    }
  }

  // --- what a key may do while copies are made ---

  // n is the name of a copy still to be made.
  ghost predicate CopyName(d: Db, user: string, n: string) {
    exists id :: Pending(d, user, id) && n == KeyPolicy(id)
  }

  // None of the policies the key is granted is one a copy is written over.
  ghost predicate Spared(d: Db, user: string, k: Key)
    requires user in d.users
  {
    && (forall n :: n in Names(d, d.users[user]) ==> !CopyName(d, user, n))
    && (k.source == "" ==> !CopyName(d, user, k.policy))
  }

  lemma CopyingSame(d: Db, e: Db, user: string, id: string)
    requires Attached(d, user) && Copying(d, e, user) && id in d.keys && Holder(d.keys[id]) == user
    requires Spared(d, user, d.keys[id])
    ensures SameAccess(d, e, id)
  {
    var k, ns := d.keys[id], Names(d, d.users[user]);
    forall n | n in ns ensures Lookup(e, n) == Lookup(d, n) { assert !Copy(d, e, user, n); }
    assert Bodies(d, ns) == Bodies(e, ns);
    if e.keys[id] == k {
      assert k.source == "" ==> Lookup(e, k.policy) == Lookup(d, k.policy);
    } else {
      NamesApart(id, id, user);
      LegacyCounts(d, user);
    }
  }

  // The shared policy is among the user's while it is attached.
  lemma LegacyCounts(d: Db, user: string)
    requires Attached(d, user)
    ensures Body(Lookup(d, Legacy(user))) <= UserStatements(d, user)
    ensures Unusable(Lookup(d, Legacy(user))) ==> UserFails(d, user)
  {
    assert Legacy(user) in Names(d, d.users[user]);
  }

  // --- what it may do afterwards ---

  ghost predicate Moved(d: Db, e: Db, user: string) {
    exists m :: Converted(d, m, user) && Detached(m, e, user)
  }

  // The shared policy still reaches the key: through a group, or as the key's own.
  ghost predicate StillGranted(e: Db, user: string, k: Key) {
    Lookup(e, Legacy(user)).Some? && user in e.users &&
    (Legacy(user) in Names(e, e.users[user]) || (k.source == "" && k.policy == Legacy(user)))
  }

  // The conversion has got to the point where it does not. The last step, deleting the shared
  // policy, may or may not have been taken.
  ghost predicate Withdrawn(d: Db, e: Db, user: string, k: Key) {
    Moved(d, e, user) && !StillGranted(e, user, k)
  }

  // What a conversion leaves under a name, for a key that has lost the shared policy.
  ghost function LookupAfter(d: Db, user: string, n: string): Option<Record> {
    if n == Legacy(user) then None
    else if Legacy(user) in d.policies && CopyName(d, user, n) then Lookup(d, Legacy(user))
    else Lookup(d, n)
  }

  lemma MovedLookup(d: Db, e: Db, user: string, n: string)
    requires Moved(d, e, user) && n != Legacy(user)
    ensures Lookup(e, n) == LookupAfter(d, user, n)
  {
    var m :| Converted(d, m, user) && Detached(m, e, user);
    if Legacy(user) in d.policies && CopyName(d, user, n) {
      var id :| Pending(d, user, id) && n == KeyPolicy(id);
      assert Given(d, m, user, id);
    }
    assert Lookup(m, n) == Lookup(d, n) || Copy(d, m, user, n);
  }

  ghost function BodiesAfter(d: Db, user: string, ns: set<string>): set<Statement> {
    set n, st | n in ns && st in Body(LookupAfter(d, user, n)) :: st
  }

  ghost predicate UnusableAfter(d: Db, user: string, ns: set<string>) {
    exists n :: n in ns && Unusable(LookupAfter(d, user, n))
  }

  // The policy of the key itself: the copy, for one that had none.
  ghost function OwnAfter(d: Db, user: string, k: Key): Option<Record> {
    if k.source != "" then None
    else if k.policy == "" then Lookup(d, Legacy(user))
    else LookupAfter(d, user, k.policy)
  }

  ghost predicate FailsAfter(d: Db, user: string, k: Key)
    requires user in d.users
  {
    || BrokenGroup(d.groups, d.users[user].groups)
    || UnusableAfter(d, user, Names(d, d.users[user]))
    || Unparsed(OwnAfter(d, user, k))
  }

  ghost function StatementsAfter(d: Db, user: string, k: Key): set<Statement>
    requires user in d.users
  {
    BodiesAfter(d, user, Names(d, d.users[user])) + Body(OwnAfter(d, user, k))
  }

  lemma MovedNames(d: Db, e: Db, user: string)
    requires Attached(d, user) && Moved(d, e, user)
    ensures user in e.users && e.users[user].groups == d.users[user].groups && e.groups == d.groups
    ensures Names(e, e.users[user]) <= Names(d, d.users[user]) <= Names(e, e.users[user]) + {Legacy(user)}
  {
    var m :| Converted(d, m, user) && Detached(m, e, user);
    WithoutMembers(d.users[user].policies, Legacy(user));
  }

  lemma WithdrawnUser(d: Db, e: Db, user: string, k: Key)
    requires Attached(d, user) && Withdrawn(d, e, user, k)
    ensures UserStatements(e, user) == BodiesAfter(d, user, Names(d, d.users[user]))
    ensures UserFails(e, user) <==>
      BrokenGroup(d.groups, d.users[user].groups) || UnusableAfter(d, user, Names(d, d.users[user]))
  {
    hide Moved, Names, BrokenGroup;
    MovedNames(d, e, user);
    var ns, ms := Names(d, d.users[user]), Names(e, e.users[user]);
    forall n | n in ms ensures Lookup(e, n) == LookupAfter(d, user, n) {
      if n != Legacy(user) { MovedLookup(d, e, user, n); }
    }
    assert Bodies(e, ms) == BodiesAfter(d, user, ns);
    assert AnyUnusable(e, ms) <==> UnusableAfter(d, user, ns);
  }

  lemma WithdrawnOwn(d: Db, e: Db, user: string, id: string)
    requires Attached(d, user) && id in d.keys && Holder(d.keys[id]) == user && Withdrawn(d, e, user, d.keys[id])
    ensures id in e.keys && Holder(e.keys[id]) == user && Own(e, e.keys[id]) == OwnAfter(d, user, d.keys[id])
  {
    var k := d.keys[id];
    var m :| Converted(d, m, user) && Detached(m, e, user);
    NamesApart(id, id, user);
    if Pending(d, user, id) && Legacy(user) in d.policies {
      assert Given(d, m, user, id);
      MovedLookup(d, e, user, KeyPolicy(id));
      assert CopyName(d, user, KeyPolicy(id));
    } else {
      assert e.keys[id] == k;
      if k.policy != Legacy(user) { MovedLookup(d, e, user, k.policy); }
    }
  }

  lemma WithdrawnAccess(d: Db, e: Db, user: string, id: string)
    requires Attached(d, user) && id in d.keys && Holder(d.keys[id]) == user && user != ""
    requires Withdrawn(d, e, user, d.keys[id])
    ensures id in e.keys
    ensures Fails(e, e.keys[id]) <==> FailsAfter(d, user, d.keys[id])
    ensures Statements(e, e.keys[id]) == StatementsAfter(d, user, d.keys[id])
  {
    hide Withdrawn, UserFails, UserStatements, BodiesAfter, UnusableAfter, OwnAfter, Own, BrokenGroup;
    WithdrawnUser(d, e, user, d.keys[id]);
    WithdrawnOwn(d, e, user, id);
  }

  // Detached from its list, the shared policy still reaches the key: nothing has changed.
  lemma StandingSame(d: Db, e: Db, user: string, id: string)
    requires Attached(d, user) && id in d.keys && Holder(d.keys[id]) == user && Spared(d, user, d.keys[id])
    requires Moved(d, e, user) && StillGranted(e, user, d.keys[id])
    ensures SameAccess(d, e, id)
  {
    hide Spared;
    var m :| Converted(d, m, user) && Detached(m, e, user);
    CopyingSame(d, m, user, id);
    LegacyKept(d, m, user);
    DetachedStanding(m, e, user, id);
  }

  lemma DetachedStanding(m: Db, e: Db, user: string, id: string)
    requires Attached(m, user) && Detached(m, e, user) && id in m.keys && Holder(m.keys[id]) == user
    requires Lookup(e, Legacy(user)) == Lookup(m, Legacy(user)) != Some(Unreadable)
    requires Legacy(user) in Names(e, e.users[user]) || (m.keys[id].source == "" && m.keys[id].policy == Legacy(user))
    ensures SameAccess(m, e, id)
  {
    var l := Legacy(user);
    LegacyApart(user);
    WithoutMembers(m.users[user].policies, l);
    var ns, ms := Names(m, m.users[user]), Names(e, e.users[user]);
    forall n ensures Lookup(e, n) == Lookup(m, n) {}
    assert ns == ms + {l};
    assert Bodies(m, ns) == Bodies(e, ms) + Body(Lookup(e, l));
    if AnyUnusable(m, ns) && !AnyUnusable(e, ms) {
      var n :| n in ns && Unusable(Lookup(m, n));
      assert n == l;
    }
  }

  // The statements the key has from policies that the conversion deletes or writes over.
  ghost function Forgone(d: Db, user: string, k: Key): set<Statement>
    requires user in d.users
  {
    Bodies(d, set n | n in Names(d, d.users[user]) && Touched(d, user, n))
    + (if k.source == "" && Touched(d, user, k.policy) then Body(Own(d, k)) else {})
  }

  // What a caller can check before converting: a key that is refused outright still will be,
  // any other has every statement it is about to lose from elsewhere too.
  ghost predicate Keeps(d: Db, user: string, k: Key)
    requires user in d.users
  {
    if Fails(d, k) then FailsAfter(d, user, k) else Forgone(d, user, k) <= StatementsAfter(d, user, k)
  }

  // A conversion gives no key a statement it did not have.
  lemma NothingGained(d: Db, user: string, k: Key)
    requires Attached(d, user) && Holder(k) == user && user != "" && !Fails(d, k)
    ensures StatementsAfter(d, user, k) <= Statements(d, k)
    ensures Lookup(d, Legacy(user)) != Some(Unreadable) ==> !FailsAfter(d, user, k)
  {
    LegacyCounts(d, user);
    var ns := Names(d, d.users[user]);
    forall st | st in BodiesAfter(d, user, ns) ensures st in Statements(d, k) {
      var n :| n in ns && st in Body(LookupAfter(d, user, n));
    }
  }

  lemma ForgoneOrKept(d: Db, user: string, k: Key, st: Statement)
    requires Attached(d, user) && Holder(k) == user && user != "" && st in Statements(d, k)
    ensures st in Forgone(d, user, k) || st in StatementsAfter(d, user, k)
  {
    var ns := Names(d, d.users[user]);
    if st in Bodies(d, ns) {
      var n :| n in ns && st in Body(Lookup(d, n));
      if !Touched(d, user, n) { assert LookupAfter(d, user, n) == Lookup(d, n); }
    }
  }

  /** Exactly when a conversion leaves a key, session or not, of a user with any policies and
      groups, with the access it had. */
  lemma WithdrawnExactly(d: Db, e: Db, user: string, id: string)
    requires Attached(d, user) && id in d.keys && Holder(d.keys[id]) == user && user != ""
    requires Withdrawn(d, e, user, d.keys[id])
    ensures SameAccess(d, e, id) <==> Keeps(d, user, d.keys[id])
  {
    hide Withdrawn, Fails, Statements, FailsAfter, StatementsAfter, Forgone;
    var k := d.keys[id];
    WithdrawnAccess(d, e, user, id);
    if !Fails(d, k) {
      WasReadable(d, e, user, k);
      NothingGained(d, user, k);
      ForgoneWasThere(d, user, k);
      forall st | st in Statements(d, k) ensures st in Forgone(d, user, k) || st in StatementsAfter(d, user, k) {
        ForgoneOrKept(d, user, k, st);
      }
    }
  }

  lemma WasReadable(d: Db, e: Db, user: string, k: Key)
    requires Withdrawn(d, e, user, k)
    ensures Lookup(d, Legacy(user)) != Some(Unreadable)
  {
  }

  lemma ForgoneWasThere(d: Db, user: string, k: Key)
    requires user in d.users && Holder(k) == user && user != ""
    ensures Forgone(d, user, k) <= Statements(d, k)
  {
  }

  // --- the three kinds of keys ---

  // The user's names but the shared one.
  ghost function Others(d: Db, user: string): set<string>
    requires user in d.users
  {
    Names(d, d.users[user]) - {Legacy(user)}
  }

  lemma SparedParts(d: Db, user: string, k: Key)
    requires Attached(d, user) && Spared(d, user, k)
    ensures BodiesAfter(d, user, Names(d, d.users[user])) == Bodies(d, Others(d, user))
    ensures UnusableAfter(d, user, Names(d, d.users[user])) <==> AnyUnusable(d, Others(d, user))
    ensures Bodies(d, set n | n in Names(d, d.users[user]) && Touched(d, user, n)) == Body(Lookup(d, Legacy(user)))
  {
    var ns := Names(d, d.users[user]);
    forall n | n in ns ensures LookupAfter(d, user, n) == if n == Legacy(user) then None else Lookup(d, n) {}
    assert (set n | n in ns && Touched(d, user, n)) == {Legacy(user)};
    BodiesOne(d, Legacy(user));
    assert BodiesAfter(d, user, ns) == Bodies(d, Others(d, user));
    if AnyUnusable(d, Others(d, user)) {
      var n :| n in Others(d, user) && Unusable(Lookup(d, n));
      assert n in ns && Unusable(LookupAfter(d, user, n));
    }
  }

  // A key that had no policy of its own has its copy: it keeps its access.
  lemma PendingKeeps(d: Db, user: string, k: Key)
    requires Attached(d, user) && Spared(d, user, k) && Lookup(d, Legacy(user)) != Some(Unreadable)
    requires k.source == "" && k.user == user && k.policy == ""
    ensures Keeps(d, user, k)
  {
    hide BodiesAfter, UnusableAfter, Bodies, BrokenGroup;
    SparedParts(d, user, k);
    LegacyApart(user);
    if AnyUnusable(d, Names(d, d.users[user])) {
      var n :| n in Names(d, d.users[user]) && Unusable(Lookup(d, n));
      if n != Legacy(user) { assert n in Others(d, user); }
    }
  }

  lemma LegacyApart(user: string)
    ensures Legacy(user) != ""
  {
    assert Legacy(user)[0] == 'k';
  }

  // A key that has its own policy is passed over. It keeps its access if and only if what the
  // shared policy says is said by another of the user's policies or by its own.
  lemma OwnPolicyKeeps(d: Db, user: string, k: Key)
    requires Attached(d, user) && Spared(d, user, k) && k.source == "" && k.user == user && user != "" && k.policy != ""
    ensures var own := if k.policy == Legacy(user) then None else Own(d, k);
      Keeps(d, user, k) <==>
        if Fails(d, k) then
          BrokenGroup(d.groups, d.users[user].groups) || AnyUnusable(d, Others(d, user)) || Unparsed(own)
        else Body(Lookup(d, Legacy(user))) <= Bodies(d, Others(d, user)) + Body(own)
  {
    hide BodiesAfter, UnusableAfter, Bodies, BrokenGroup, Fails;
    SparedParts(d, user, k);
    assert OwnAfter(d, user, k) == if k.policy == Legacy(user) then None else Own(d, k);
  }

  // A session is resolved from its source user alone, so the copy made for its key does not
  // count. It keeps its access if and only if another of the user's policies says what the
  // shared one does; one that was refused for an unusable policy stays so only if another is
  // unusable.
  lemma SessionKeeps(d: Db, user: string, k: Key)
    requires Attached(d, user) && Spared(d, user, k) && k.source == user && user != ""
    ensures Keeps(d, user, k) <==>
      if Fails(d, k) then BrokenGroup(d.groups, d.users[user].groups) || AnyUnusable(d, Others(d, user))
      else Body(Lookup(d, Legacy(user))) <= Bodies(d, Others(d, user))
  {
    hide BodiesAfter, UnusableAfter, Bodies, BrokenGroup, Fails;
    SparedParts(d, user, k);
  }

  // The shared policy is still attached, or still reaches the key otherwise.
  ghost predicate Standing(e: Db, user: string, k: Key) { Attached(e, user) || StillGranted(e, user, k) }

  /** Over any number of attempts, each stopped anywhere. As long as the shared policy reaches a
      key its access is the same, unless a copy is written over a policy it is granted; from
      then on it is the same if and only if Keeps said so before the first attempt. */
  lemma AttemptsExactly(ds: seq<Db>, user: string, id: string)
    requires Attempts(ds, user) && Attached(ds[0], user) && id in ds[0].keys && Holder(ds[0].keys[id]) == user
    requires user != ""
    ensures var d, e := ds[0], ds[|ds| - 1];
      if Standing(e, user, d.keys[id]) then Spared(d, user, d.keys[id]) ==> SameAccess(d, e, id)
      else SameAccess(d, e, id) <==> Keeps(d, user, d.keys[id])
  {
    var d, e := ds[0], ds[|ds| - 1];
    var k := d.keys[id];
    hide SameAccess, Keeps, Spared, Copying, Moved, StillGranted;
    AttemptsAreOne(ds, user);
    StoppedIsEither(d, e, user);
    if Attached(e, user) {
      StillCopying(d, e, user);
      if Spared(d, user, k) { CopyingSame(d, e, user, id); }
    } else if StillGranted(e, user, k) {
      if Spared(d, user, k) { StandingSame(d, e, user, id); }
    } else {
      WithdrawnExactly(d, e, user, id);
    }
  }

  lemma StoppedIsEither(d: Db, e: Db, user: string)
    requires Attached(d, user) && Stopped(d, e, user)
    ensures Attached(e, user) || Moved(d, e, user)
  {
  }

  // And then every request is answered as before, however the policies are loaded: the same
  // decisions are possible. For a key without a policy of its own that is so at every stop.
  lemma AttemptsKeepDecisions(env: Env, ds: seq<Db>, user: string, id: string, before: seq<seq<Statement>>,
                              after: seq<seq<Statement>>, req: Request, allowed: bool, denied: bool)
    requires Attempts(ds, user) && Attached(ds[0], user) && id in ds[0].keys && Holder(ds[0].keys[id]) == user
    requires user != ""
    requires var d, k := ds[0], ds[0].keys[id];
      || (Spared(d, user, k) && (Standing(ds[|ds| - 1], user, k) || (k.source == "" && k.policy == "")))
      || (Keeps(d, user, k) && !Standing(ds[|ds| - 1], user, k))
    requires SetOf(Flat(before)) == Statements(ds[0], ds[0].keys[id])
    requires var e := ds[|ds| - 1]; id in e.keys && SetOf(Flat(after)) == Statements(e, e.keys[id])
    ensures var d, e := ds[0], ds[|ds| - 1];
      Authorizes(env, Fails(d, d.keys[id]), Statements(d, d.keys[id]), before, req, allowed, denied) <==>
      Authorizes(env, Fails(e, e.keys[id]), Statements(e, e.keys[id]), after, req, allowed, denied)
  {
    var d, e := ds[0], ds[|ds| - 1];
    var k := d.keys[id];
    hide SameAccess, Keeps, Spared, Attempts, Authorizes, Fails, Statements, Flat, StillGranted, Attached;
    AttemptsExactly(ds, user, id);
    if !Standing(e, user, k) && !Keeps(d, user, k) {
      AttemptsReadable(ds, user, k);
      PendingKeeps(d, user, k);
    }
    SameDecisions(env, d, e, id, before, after, req, allowed, denied);
  }

  lemma AttemptsReadable(ds: seq<Db>, user: string, k: Key)
    requires Attempts(ds, user) && Attached(ds[0], user) && !Standing(ds[|ds| - 1], user, k)
    ensures Lookup(ds[0], Legacy(user)) != Some(Unreadable)
  {
    hide Copying;
    AttemptsAreOne(ds, user);
    StoppedIsEither(ds[0], ds[|ds| - 1], user);
  }

  // While the shared policy is attached, and whatever copies are written over: the statements
  // the key had from policies that have been written over so far.
  ghost function WrittenOver(d: Db, e: Db, user: string, k: Key): set<Statement>
    requires user in d.users
  {
    Bodies(d, set n | n in Names(d, d.users[user]) && Lookup(e, n) != Lookup(d, n))
    + (if k.policy != "" && Lookup(e, k.policy) != Lookup(d, k.policy) then Body(Own(d, k)) else {})
  }

  lemma CopyingExactly(d: Db, e: Db, user: string, id: string)
    requires Attached(d, user) && Copying(d, e, user) && id in d.keys && Holder(d.keys[id]) == user && user != ""
    ensures var k := d.keys[id];
      SameAccess(d, e, id) <==>
        if Fails(d, k) then StillRefused(d, e, user, k) else WrittenOver(d, e, user, k) <= Statements(e, e.keys[id])
  {
    if Fails(d, d.keys[id]) {
      RefusedExactly(d, e, user, id);
    } else {
      GrantedExactly(d, e, user, id);
    }
  }

  // A key that is refused outright for a policy no copy has been written over, or for a group.
  ghost predicate StillRefused(d: Db, e: Db, user: string, k: Key)
    requires user in d.users
  {
    || BrokenGroup(d.groups, d.users[user].groups)
    || (exists n :: n in Names(d, d.users[user]) && Unusable(Lookup(d, n)) && Lookup(e, n) == Lookup(d, n))
    || (Unparsed(Own(d, k)) && Lookup(e, k.policy) == Lookup(d, k.policy))
  }

  lemma RefusedExactly(d: Db, e: Db, user: string, id: string)
    requires Attached(d, user) && Copying(d, e, user) && id in d.keys && Holder(d.keys[id]) == user && user != ""
    requires Fails(d, d.keys[id])
    ensures SameAccess(d, e, id) <==> StillRefused(d, e, user, d.keys[id])
  {
    hide BrokenGroup;
    var k, k', ns := d.keys[id], e.keys[id], Names(d, d.users[user]);
    LegacyKept(d, e, user);
    LegacyCounts(d, user);
    NamesApart(id, id, user);
    assert Legacy(user) in ns;
    forall n ensures Lookup(e, n) == Lookup(d, n) || Lookup(e, n) == Lookup(d, Legacy(user)) {}
    if Unparsed(Own(e, k')) && Own(e, k') == Lookup(d, Legacy(user)) {
      assert Unusable(Lookup(d, Legacy(user)));
    }
  }

  lemma GrantedExactly(d: Db, e: Db, user: string, id: string)
    requires Attached(d, user) && Copying(d, e, user) && id in d.keys && Holder(d.keys[id]) == user && user != ""
    requires !Fails(d, d.keys[id])
    ensures SameAccess(d, e, id) <==> WrittenOver(d, e, user, d.keys[id]) <= Statements(e, e.keys[id])
  {
    hide BrokenGroup;
    var k, k', ns := d.keys[id], e.keys[id], Names(d, d.users[user]);
    LegacyCounts(d, user);
    NamesApart(id, id, user);
    forall n ensures Lookup(e, n) == Lookup(d, n) || Lookup(e, n) == Lookup(d, Legacy(user)) {}
    assert !Fails(e, k');
    forall st | st in Statements(e, k') ensures st in Statements(d, k) {
      if st in Bodies(e, ns) { var n :| n in ns && st in Body(Lookup(e, n)); }
    }
    forall st | st in Statements(d, k) ensures st in WrittenOver(d, e, user, k) || st in Statements(e, k') {
      if st in Bodies(d, ns) { var n :| n in ns && st in Body(Lookup(d, n)); }
    }
  }

  // --- access lost and gained ---

  ghost predicate MayAllow(env: Env, sts: set<Statement>, req: Request) {
    Outcome(env, sts, req, false, true, false)
  }

  // A session gains access when the shared policy is what refused it: by a Deny that is sure
  // to apply, or by not parsing, while the user's other policies allow the request.
  lemma SessionGains(env: Env, d: Db, e: Db, user: string, id: string, req: Request)
    requires Attached(d, user) && id in d.keys && d.keys[id].source == user && user != ""
    requires Spared(d, user, d.keys[id]) && Withdrawn(d, e, user, d.keys[id])
    requires !BrokenGroup(d.groups, d.users[user].groups) && !AnyUnusable(d, Others(d, user))
    requires MayAllow(env, Bodies(d, Others(d, user)), req)
    requires
      || Unparsed(Lookup(d, Legacy(user)))
      || exists st :: st in Body(Lookup(d, Legacy(user))) && !CanPass(env, st, req)
    ensures Fails(d, d.keys[id]) || !MayAllow(env, Statements(d, d.keys[id]), req)
    ensures !Fails(e, e.keys[id]) && MayAllow(env, Statements(e, e.keys[id]), req)
  {
    hide BrokenGroup, Bodies, BodiesAfter, UnusableAfter, AnyUnusable, CanPass, Says, Withdrawn, Spared;
    LegacyCounts(d, user);
    SparedParts(d, user, d.keys[id]);
    WithdrawnAccess(d, e, user, id);
  }

  // An administrator attaches a policy by the shared name to a user whose key has its own
  // policy. The next key issued for the user costs this one what the shared policy granted.
  function Anything(): Statement { Statement(Allow, ["s3:*"], [], ["*"], [], map[]) }
  function ReadOnly(): Statement { Statement(Allow, ["s3:GetObject"], [], ["*"], [], map[]) }

  function Alice(): Db {
    Db(map["alice" := User([Legacy("alice")], [], [], false)], map[],
       map[Legacy("alice") := Document(Some([Anything()])), KeyPolicy("AK") := Document(Some([ReadOnly()]))],
       map["AK" := Key("alice", "", KeyPolicy("AK"))])
  }

  function AliceAfter(): Db {
    Alice().(users := map["alice" := Detach(Alice().users["alice"], "alice")],
             policies := map[KeyPolicy("AK") := Document(Some([ReadOnly()]))])
  }

  lemma HandAttachedLoses()
    ensures Attached(Alice(), "alice") && Withdrawn(Alice(), AliceAfter(), "alice", Alice().keys["AK"])
    ensures !Keeps(Alice(), "alice", Alice().keys["AK"]) && !SameAccess(Alice(), AliceAfter(), "AK")
  {
    var d, e, k := Alice(), AliceAfter(), Alice().keys["AK"];
    AliceMoved();
    AliceLoses(k);
    hide Withdrawn, Keeps, SameAccess;
    WithdrawnExactly(d, e, "alice", "AK");
  }

  // A request that her key was allowed before, and is refused after.
  function Matching(): Env { Implemented(Env((p, v) => false, o => true, (o, a, e) => true)) }

  function Writing(): Request { Request("s3:PutObject", "a-bucket", map[]) }

  lemma AliceRefused()
    ensures MayAllow(Matching(), Statements(Alice(), Alice().keys["AK"]), Writing())
    ensures !MayAllow(Matching(), Statements(AliceAfter(), AliceAfter().keys["AK"]), Writing())
  {
    AliceStatements();
    AliceMatches();
    hide MayAllow, Says, CanPass, Statements, Matching, Writing, Anything, ReadOnly;
    OneGrants(Matching(), Anything(), ReadOnly(), Writing());
  }

  lemma OneGrants(env: Env, a: Statement, b: Statement, req: Request)
    requires CanPass(env, a, req) && CanPass(env, b, req) && Says(env, a, req, Grant) && !Says(env, b, req, Grant)
    ensures MayAllow(env, {a, b}, req) && !MayAllow(env, {b}, req)
  {
    hide Says, CanPass;
    assert a in {a, b};
  }

  // What the two statements say about it.
  lemma AliceMatches()
    ensures CanPass(Matching(), Anything(), Writing()) && Says(Matching(), Anything(), Writing(), Grant)
    ensures CanPass(Matching(), ReadOnly(), Writing()) && !Says(Matching(), ReadOnly(), Writing(), Grant)
  {
    var env, req := Matching(), Writing();
    Unconditional(env, Anything(), req);
    Unconditional(env, ReadOnly(), req);
    hide Says, CanPass;
    WritesMatch();
    hide Wildcards.Matches;
    assert "s3:*" in Anything().action && env.wild("s3:*", req.action);
    assert "*" in Anything().resource && env.wild("*", req.resource);
    assert !env.wild("s3:GetObject", req.action);
    assert forall p :: p in ReadOnly().action ==> p == "s3:GetObject";
  }

  lemma WritesMatch()
    ensures Wildcards.Matches("s3:*", "s3:PutObject") && !Wildcards.Matches("s3:GetObject", "s3:PutObject")
    ensures Wildcards.Matches("*", "a-bucket")
  {
    hide Wildcards.Glob, Wildcards.Meant, Wildcards.Scan;
    assert "s3:GetObject"[3] == 'G' && "s3:PutObject"[3] == 'P';
    AllActions("PutObject");
    assert "s3:" + "PutObject" == "s3:PutObject";
  }

  lemma AllActions(op: string)
    requires '*' !in op
    ensures Wildcards.Matches("s3:*", "s3:" + op)
  {
    hide Wildcards.Matches, Wildcards.Glob;
    Wildcards.StarMatchesAll(op);
    Wildcards.FitsThen("s3:", "*", "s3:", op);
    assert "s3:" + "*" == "s3:*";
    Wildcards.MatchesComplete("s3:*", "s3:" + op);
  }

  // A statement without conditions allows what it applies to, and bars nothing.
  lemma Unconditional(env: Env, st: Statement, req: Request)
    requires st.condition == map[] && st.effect == Allow
    ensures CanPass(env, st, req) && !Says(env, st, req, Refuse)
    ensures Says(env, st, req, Grant) <==> Applies(env, st, req)
  {
    assert !Unproven(env, st.condition, req.ctx) && !Failing(env, st.condition, req.ctx);
    assert Reading(Allow, true, true) == Grant;
  }

  lemma AliceStatements()
    ensures Statements(Alice(), Alice().keys["AK"]) == {Anything(), ReadOnly()}
    ensures Statements(AliceAfter(), AliceAfter().keys["AK"]) == {ReadOnly()}
  {
    var d, e, l := Alice(), AliceAfter(), Legacy("alice");
    NamesApart("AK", "AK", "alice");
    WithoutMembers([l], l);
    assert Names(d, d.users["alice"]) == {l};
    assert Names(e, e.users["alice"]) == {} by { assert forall n :: n in [l] ==> n == l; }
    BodiesOne(d, l);
    assert SetOf([Anything()]) == {Anything()} && SetOf([ReadOnly()]) == {ReadOnly()};
  }

  lemma AliceMoved()
    ensures Withdrawn(Alice(), AliceAfter(), "alice", Alice().keys["AK"])
  {
    var d, e, l := Alice(), AliceAfter(), Legacy("alice");
    NamesApart("AK", "AK", "alice");
    assert forall id :: !Pending(d, "alice", id);
    assert Converted(d, d, "alice") && Detached(d, e, "alice");
    assert Lookup(e, l) == None;
  }

  lemma AliceLoses(k: Key)
    requires k == Alice().keys["AK"]
    ensures Attached(Alice(), "alice") && !Keeps(Alice(), "alice", k)
  {
    var d, l := Alice(), Legacy("alice");
    NamesApart("AK", "AK", "alice");
    assert forall id :: !Pending(d, "alice", id);
    assert Names(d, d.users["alice"]) == {l};
    assert Others(d, "alice") == {};
    assert !Fails(d, k);
    OwnPolicyKeeps(d, "alice", k);
    assert "s3:*"[3] == '*' && "s3:GetObject"[3] == 'G';
    assert Anything() in Body(Lookup(d, l)) && Anything() != ReadOnly();
  }

  // The names a conversion writes or deletes.
  ghost predicate Touched(d: Db, user: string, n: string) {
    n == Legacy(user) || CopyName(d, user, n)
  }

  // A key of another user is not affected unless it is granted one of those names.
  lemma OthersSame(d: Db, e: Db, user: string, id: string)
    requires Attached(d, user) && Stopped(d, e, user)
    requires id in d.keys && Holder(d.keys[id]) != user && !Touched(d, user, d.keys[id].policy)
    requires Holder(d.keys[id]) in d.users ==>
      forall n :: n in Names(d, d.users[Holder(d.keys[id])]) ==> !Touched(d, user, n)
    ensures SameAccess(d, e, id)
  {
    hide Touched, Stopped, Attached;
    var k := d.keys[id];
    SourceKept(d, e, user, id);
    var h := Holder(k);
    if h in d.users {
      UserKept(d, e, user, h);
      var ns := Names(d, d.users[h]);
      forall n | n in ns { LookupKept(d, e, user, n); }
      assert Bodies(d, ns) == Bodies(e, ns);
    } else {
      UserKept(d, e, user, h);
    }
    LookupKept(d, e, user, k.policy);
  }

  lemma LookupKept(d: Db, e: Db, user: string, n: string)
    requires Stopped(d, e, user) && !Touched(d, user, n)
    ensures Lookup(e, n) == Lookup(d, n)
  {
    if !Copying(d, e, user) {
      var m :| Converted(d, m, user) && Detached(m, e, user);
      assert Lookup(e, n) == Lookup(m, n);
    }
  }

  lemma UserKept(d: Db, e: Db, user: string, h: string)
    requires Stopped(d, e, user) && h != user
    ensures e.groups == d.groups && (h in e.users <==> h in d.users)
    ensures h in d.users ==> e.users[h] == d.users[h]
  {
    if !Copying(d, e, user) {
      var m :| Converted(d, m, user) && Detached(m, e, user);
    }
  }

  lemma SourceKept(d: Db, e: Db, user: string, id: string)
    requires Stopped(d, e, user) && id in d.keys
    ensures id in e.keys && e.keys[id].source == d.keys[id].source && e.keys[id].user == d.keys[id].user
    ensures d.keys[id].user != user ==> e.keys[id] == d.keys[id]
  {
    if !Copying(d, e, user) {
      var m :| Converted(d, m, user) && Detached(m, e, user);
    }
  }

  lemma BodiesOne(d: Db, n: string)
    ensures Bodies(d, {n}) == Body(Lookup(d, n))
  {
    var b := Body(Lookup(d, n));
    assert forall st :: st in b ==> n in {n} && st in Body(Lookup(d, n));
    assert forall st :: st in b ==> st in Bodies(d, {n});
  }

  class Store {
    var db: Db
    var calls: nat
    const faults: nat -> bool

    constructor (d: Db, f: nat -> bool)
      ensures db == d && faults == f && calls == 0
    {
      db, calls, faults := d, 0, f;
    }

    ghost predicate Healthy() {
      forall n :: !faults(n)
    }

    // Whether the next call to the store fails.
    method Fault() returns (f: bool)
      modifies this`calls
      ensures f == faults(old(calls)) && calls == old(calls) + 1
    {
      f, calls := faults(calls), calls + 1;
    }

    method ReadPolicy(n: string) returns (r: Option<Record>)
      modifies this`calls
      ensures r == if faults(old(calls)) || Lookup(db, n) == Some(Unreadable) then None else Lookup(db, n)
    {
      var f := Fault();
      r := if f || Lookup(db, n) == Some(Unreadable) then None else Lookup(db, n);
    }

    // Listing fails when any record cannot be read.
    method ListPolicies() returns (ns: Option<set<string>>)
      modifies this`calls
      ensures ns == if faults(old(calls)) || !AllReadable(db) then None else Some(db.policies.Keys)
    {
      var f := Fault();
      ns := if f || Unreadable in db.policies.Values then None else Some(db.policies.Keys);
      assert forall n :: n in db.policies ==> Lookup(db, n).value in db.policies.Values;
      assert AllReadable(db) || exists n :: Lookup(db, n) == Some(Unreadable);
    }

    method CreatePolicy(n: string, r: Record) returns (ok: bool)
      modifies this
      ensures ok <==> !faults(old(calls)) && n !in old(db).policies
      ensures if ok then db == old(db).(policies := old(db).policies[n := r]) else db == old(db)
    {
      var f := Fault();
      ok := !f && n !in db.policies;
      if ok { db := db.(policies := db.policies[n := r]); }
    }

    method UpdatePolicy(n: string, r: Record) returns (ok: bool)
      modifies this
      ensures ok <==> !faults(old(calls))
      ensures db == if ok then old(db).(policies := old(db).policies[n := r]) else old(db)
    {
      var f := Fault();
      ok := !f;
      if ok { db := db.(policies := db.policies[n := r]); }
    }

    method DeletePolicy(n: string) returns (ok: bool)
      modifies this
      ensures ok <==> !faults(old(calls))
      ensures db == if ok then old(db).(policies := old(db).policies - {n}) else old(db)
    {
      var f := Fault();
      ok := !f;
      if ok { db := db.(policies := db.policies - {n}); }
    }

    method PutKey(id: string, k: Key) returns (ok: bool)
      modifies this
      ensures ok <==> !faults(old(calls))
      ensures db == if ok then old(db).(keys := old(db).keys[id := k]) else old(db)
    {
      var f := Fault();
      ok := !f;
      if ok { db := db.(keys := db.keys[id := k]); }
    }

    method UpdateUser(name: string, u: User) returns (ok: bool)
      modifies this
      ensures ok <==> !faults(old(calls)) && name in old(db).users
      ensures db == if ok then old(db).(users := old(db).users[name := u]) else old(db)
    {
      var f := Fault();
      ok := !f && name in db.users;
      if ok { db := db.(users := db.users[name := u]); }
    }

    // A copy of the shared document under the key's name. One left by an earlier attempt is
    // brought up to date.
    method GiveCopy(id: string, doc: Record) returns (ok: bool)
      modifies this
      ensures db == old(db) || db == old(db).(policies := old(db).policies[KeyPolicy(id) := doc])
      ensures ok ==> db == old(db).(policies := old(db).policies[KeyPolicy(id) := doc])
      ensures Healthy() && AllReadable(old(db)) ==> ok
    {
      ok := CreatePolicy(KeyPolicy(id), doc);
      if !ok {
        var there := ReadPolicy(KeyPolicy(id));
        if there.None? { return; }
        ok := UpdatePolicy(KeyPolicy(id), doc);
      }
    }

    // One key: its copy first, then the key that points at it.
    method Convert(ghost d: Db, user: string, id: string, k: Key, doc: Record) returns (ok: bool)
      requires Copying(d, db, user) && Pending(d, user, id)
      requires d.keys[id] == k && Lookup(d, Legacy(user)) == Some(doc)
      modifies this
      ensures Copying(d, db, user)
      ensures ok ==> Given(d, db, user, id)
      ensures forall x :: Given(d, old(db), user, x) ==> Given(d, db, user, x)
      ensures Healthy() && AllReadable(old(db)) ==> ok
    {
      hide Copying, Given, Pending;
      ghost var was := db;
      ok := GiveCopy(id, doc);
      CopyWritten(d, was, user, id, doc);
      if !ok { return; }
      KeyWritten(d, db, user, id, doc);
      ok := PutKey(id, k.(policy := KeyPolicy(id)));
    }

    // The shared document, or none when it was deleted by hand. An unreadable one stops.
    method ReadShared(user: string) returns (ok: bool, doc: Option<Record>)
      modifies this`calls
      ensures ok ==> doc == Lookup(db, Legacy(user)) && doc != Some(Unreadable)
      ensures Healthy() && AllReadable(db) ==> ok
    {
      doc := ReadPolicy(Legacy(user));
      ok := true;
      if doc.None? {
        var all := ListPolicies();
        if all.None? || Legacy(user) in all.value { ok := false; }
      }
    }

    method SplitLegacyKeyPolicy(user: string) returns (ok: bool)
      modifies this
      ensures !Attached(old(db), user) ==> db == old(db)
      ensures Attached(old(db), user) ==> Stopped(old(db), db, user)
      ensures ok && Attached(old(db), user) ==>
        exists m :: Converted(old(db), m, user) && Detached(m, db, user) && Legacy(user) !in db.policies
      ensures Healthy() && AllReadable(old(db)) && user in old(db).users ==> ok
    {
      ghost var d := db;
      var f := Fault();
      if f || user !in db.users { return false; }
      var u := db.users[user];
      if Legacy(user) !in u.policies { return true; }
      var doc;
      ok, doc := ReadShared(user);
      if !ok { return; }
      f := Fault();
      if f { return false; }
      var keys := db.keys;
      var left := keys.Keys;
      while left != {}
        invariant left <= keys.Keys && Copying(d, db, user)
        invariant doc.Some? ==> forall id :: Pending(d, user, id) && id !in left ==> Given(d, db, user, id)
        decreases left
      {
        var id :| id in left;
        if doc.Some? && keys[id].user == user && keys[id].policy == "" {
          CopyingReadable(d, db, user);
          ok := Convert(d, user, id, keys[id], doc.value);
          if !ok { return; }
        }
        left := left - {id};
      }
      ghost var m := db;
      LegacyKept(d, m, user);
      var detached := DetachPolicy(u, user);
      ok := UpdateUser(user, detached);
      if !ok { return; }
      assert Converted(d, m, user) && Detached(m, db, user);
      ok := DeletePolicy(Legacy(user));
      assert Converted(d, m, user) && Detached(m, db, user);
    }
  }

  lemma CopyWritten(d: Db, e: Db, user: string, id: string, doc: Record)
    requires Copying(d, e, user) && Pending(d, user, id) && Lookup(d, Legacy(user)) == Some(doc)
    ensures var w := e.(policies := e.policies[KeyPolicy(id) := doc]);
      && Copying(d, w, user)
      && forall x :: Given(d, e, user, x) ==> Given(d, w, user, x)
  {
    var w := e.(policies := e.policies[KeyPolicy(id) := doc]);
    assert forall n :: Lookup(w, n) == if n == KeyPolicy(id) then Some(doc) else Lookup(e, n);
  }

  lemma KeyWritten(d: Db, e: Db, user: string, id: string, doc: Record)
    requires Copying(d, e, user) && Pending(d, user, id) && Lookup(d, Legacy(user)) == Some(doc)
    requires Lookup(e, KeyPolicy(id)) == Some(doc)
    ensures var w := e.(keys := e.keys[id := d.keys[id].(policy := KeyPolicy(id))]);
      && Copying(d, w, user) && Given(d, w, user, id)
      && forall x :: Given(d, e, user, x) ==> Given(d, w, user, x)
  {
    var w := e.(keys := e.keys[id := d.keys[id].(policy := KeyPolicy(id))]);
    assert forall n :: Lookup(w, n) == Lookup(e, n);
  }

  method DetachPolicy(u: User, name: string) returns (r: User)
    ensures r == Detach(u, name)
    ensures r.keyManaged <==> u.keyManaged || (u.policies == [Legacy(name)] && u.groups == [] && u.cidrs == [])
    ensures r.groups == u.groups && r.cidrs == u.cidrs
    ensures forall n :: n in r.policies <==> n in u.policies && n != Legacy(name)
  {
    WithoutMembers(u.policies, Legacy(name));
    var kept := [];
    for i := 0 to |u.policies|
      invariant kept == Without(u.policies[..i], Legacy(name))
    {
      assert u.policies[..i + 1][..i] == u.policies[..i];
      if u.policies[i] != Legacy(name) { kept := kept + [u.policies[i]]; }
    }
    assert u.policies[..|u.policies|] == u.policies;
    r := u.(keyManaged := KeyManaged(u, name), policies := kept);
  }
}
