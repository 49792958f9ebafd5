/**
 * The operations of app.rb's `Greenlights` class that make up the core:
 * `callback` (rule selection and the time gate), `resolve` and `add_rule`.
 * Each takes the database and the bulbs' command log and updates them in
 * place, as the source does with SQLite and the LIFX client.
 */
module Greenlights {

  import opened Wrappers
  import opened TimeGate
  import opened Colors
  import opened Store
  import opened Resolution
  import opened RuleForm
  import opened Query

  // ---------------------------------------------------------------------
  // Rule selection

  /**
   * The INTERSECT query of `callback`: rules joined to the active profile and
   * to the firing callback. `profile_id = NULL` matches no row.
   */
  function Candidates(ruleProfiles: seq<(int, int)>, ruleCallbacks: seq<(int, string)>,
                      active: Option<int>, uuid: string): set<int>
  {
    if active.None? then {}
    else
      (set i | 0 <= i < |ruleProfiles| && ruleProfiles[i].1 == active.value :: ruleProfiles[i].0)
      * (set j | 0 <= j < |ruleCallbacks| && ruleCallbacks[j].1 == uuid :: ruleCallbacks[j].0)
  }

  /**
   * A rule is a candidate exactly when a profile row joins it to the active
   * profile and a callback row joins it to the firing callback.
   */
  lemma CandidatesSpec(ruleProfiles: seq<(int, int)>, ruleCallbacks: seq<(int, string)>,
                       active: Option<int>, uuid: string, r: int)
    ensures r in Candidates(ruleProfiles, ruleCallbacks, active, uuid) <==>
      && active.Some?
      && (exists i :: 0 <= i < |ruleProfiles| && ruleProfiles[i] == (r, active.value))
      && (exists j :: 0 <= j < |ruleCallbacks| && ruleCallbacks[j] == (r, uuid))
  {
    if active.Some? {
      if (exists i :: 0 <= i < |ruleProfiles| && ruleProfiles[i] == (r, active.value))
         && (exists j :: 0 <= j < |ruleCallbacks| && ruleCallbacks[j] == (r, uuid)) {
        var i :| 0 <= i < |ruleProfiles| && ruleProfiles[i] == (r, active.value);
        var j :| 0 <= j < |ruleCallbacks| && ruleCallbacks[j] == (r, uuid);
        assert ruleProfiles[i].0 == r && ruleCallbacks[j].0 == r;
      }
    }
  }

  /** With no active profile (NULL), no rule is a candidate. */
  lemma NoActiveProfileNoCandidates(ruleProfiles: seq<(int, int)>, ruleCallbacks: seq<(int, string)>, uuid: string)
    ensures Candidates(ruleProfiles, ruleCallbacks, None, uuid) == {}
  {
  }

  /** A rule joined only to profiles other than the active one is never a candidate. */
  lemma OtherProfileNeverCandidate(ruleProfiles: seq<(int, int)>, ruleCallbacks: seq<(int, string)>,
                                   p: int, uuid: string, r: int)
    requires forall i :: 0 <= i < |ruleProfiles| && ruleProfiles[i].0 == r ==> ruleProfiles[i].1 != p
    ensures r !in Candidates(ruleProfiles, ruleCallbacks, Some(p), uuid)
  {
  }

  /**
   * A rule added with fresh id `id` is tied to profile -1 and to its sensors
   * only: it is a candidate exactly when -1 is the active profile and the
   * firing callback is one of its sensors.
   */
  lemma NewRuleCandidacy(ruleProfiles: seq<(int, int)>, ruleCallbacks: seq<(int, string)>, id: int,
                         sensors: seq<string>, active: int, uuid: string)
    requires forall i :: 0 <= i < |ruleProfiles| ==> ruleProfiles[i].0 != id
    requires forall i :: 0 <= i < |ruleCallbacks| ==> ruleCallbacks[i].0 != id
    ensures id in Candidates(ruleProfiles + [(id, -1)], ruleCallbacks + CallbackRows(id, sensors), Some(active), uuid)
      <==> active == -1 && uuid in sensors
  {
    var profiles := ruleProfiles + [(id, -1)];
    var callbacks := ruleCallbacks + CallbackRows(id, sensors);
    CandidatesSpec(profiles, callbacks, Some(active), uuid, id);
    if active == -1 && uuid in sensors {
      assert profiles[|ruleProfiles|] == (id, active);
      var k :| 0 <= k < |sensors| && sensors[k] == uuid;
      assert callbacks[|ruleCallbacks| + k] == (id, uuid);
    }
    if id in Candidates(profiles, callbacks, Some(active), uuid) {
      var i :| 0 <= i < |profiles| && profiles[i] == (id, active);
      var j :| 0 <= j < |callbacks| && callbacks[j] == (id, uuid);
      assert i == |ruleProfiles|;
      assert j >= |ruleCallbacks| && callbacks[j] == CallbackRows(id, sensors)[j - |ruleCallbacks|];
      assert sensors[j - |ruleCallbacks|] == uuid;
    }
  }

  /** Whether rule `r` exists and its window holds `now`. */
  predicate Armed(rules: map<int, Rule>, r: int, now: int)
  {
    r in rules && IsTime(now, rules[r].start, rules[r].finish)
  }

  /**
   * One iteration of `rules.each` in `callback`: a missing rule row makes
   * `is_time?` raise; an armed rule is resolved; any other rule is skipped.
   */
  function RuleStep(lights: map<int, Light>, rules: map<int, Rule>, ruleLights: seq<(int, Option<int>)>,
                    r: int, now: int, faults: seq<Faults>): Run
  {
    if r !in rules then Run(lights, [], true)
    else if !IsTime(now, rules[r].start, rules[r].finish) then Run(lights, [], false)
    else ResolveRule(lights, rules, ruleLights, r, faults)
  }

  /** The candidates in the order visited; a raised exception ends the callback. */
  function RunRules(lights: map<int, Light>, rules: map<int, Rule>, ruleLights: seq<(int, Option<int>)>,
                    order: seq<int>, now: int, faults: map<int, seq<Faults>>): Run
  {
    if order == [] then Run(lights, [], false)
    else
      var prev := RunRules(lights, rules, ruleLights, order[..|order| - 1], now, faults);
      var r := order[|order| - 1];
      if prev.raised then prev
      else
        var step := RuleStep(prev.lights, rules, ruleLights, r, now, FaultsOf(faults, r));
        Run(step.lights, prev.sent + step.sent, step.raised)
  }

  /** The rules of `order` that were armed, in the same order. */
  function ArmedAmong(rules: map<int, Rule>, order: seq<int>, now: int): seq<int>
  {
    if order == [] then []
    else
      var r := order[|order| - 1];
      ArmedAmong(rules, order[..|order| - 1], now) + (if Armed(rules, r, now) then [r] else [])
  }

  /** The armed rules of a visiting order are exactly its armed members, each once if the order repeats none. */
  lemma {:induction false} ArmedAmongSpec(rules: map<int, Rule>, order: seq<int>, now: int)
    ensures forall r :: r in ArmedAmong(rules, order, now) <==> r in order && Armed(rules, r, now)
    ensures Distinct(order) ==> Distinct(ArmedAmong(rules, order, now))
  {
    if order != [] {
      var prefix := order[..|order| - 1];
      assert order == prefix + [order[|order| - 1]];
      ArmedAmongSpec(rules, prefix, now);
    }
  }

  /** One more visited rule is appended to the armed ones exactly when it is armed. */
  lemma ArmedAmongNext(rules: map<int, Rule>, order: seq<int>, r: int, now: int)
    ensures ArmedAmong(rules, order + [r], now)
      == ArmedAmong(rules, order, now) + (if Armed(rules, r, now) then [r] else [])
  {
    assert (order + [r])[..|order|] == order;
  }

  /** Visiting one more rule runs it on the state the earlier ones left, unless one raised. */
  lemma RunRulesNext(lights: map<int, Light>, rules: map<int, Rule>, ruleLights: seq<(int, Option<int>)>,
                     order: seq<int>, r: int, now: int, faults: map<int, seq<Faults>>)
    ensures var prev := RunRules(lights, rules, ruleLights, order, now, faults);
      var step := RuleStep(prev.lights, rules, ruleLights, r, now, FaultsOf(faults, r));
      RunRules(lights, rules, ruleLights, order + [r], now, faults)
        == if prev.raised then prev else Run(step.lights, prev.sent + step.sent, step.raised)
  {
    assert (order + [r])[..|order|] == order;
  }

  // ---------------------------------------------------------------------
  // resolve

  /**
   * One iteration of `light_ids.each` in `resolve`: the light table and the
   * command log change as `LightStep` says.
   */
  method ResolveLight(db: Database, port: LightPort, lightId: Option<int>, credits: int, color: Color, f: Faults)
    returns (raised: bool)
    modifies db`lights, port
    ensures var step := LightStep(old(db.lights), lightId, credits, color, f);
      db.lights == step.lights && port.sent == old(port.sent) + step.sent && raised == step.raised
  {
    if lightId.None? || lightId.value !in db.lights {
      // `light_info[0][0]` on an empty result raises
      return true;
    }
    var id := lightId.value;
    var light := db.lights[id];
    raised := false;
    if credits >= light.credits || credits == -1 {
      var sent := [SetColor(light.deviceLabel, color)];
      var failed := f.setColorRaises;
      if !failed {
        sent := sent + [TurnOn(light.deviceLabel)];
        failed := f.turnOnRaises;
      }
      if failed {
        // rescue: `set_color` once more; if that raises, it escapes after `ensure`
        sent := sent + [SetColor(light.deviceLabel, color)];
        raised := f.retryRaises;
      }
      port.sent := port.sent + sent;
      // ensure: the UPDATE at app.rb:164 binds the whole `light_ids` list
      // for `id=?`; this write is keyed by the light being processed
      // (see `Resolution.UpdateAsWritten`).
      db.lights := db.lights[id := light.(credits := credits)];
    } else if credits == 0 {
      // app.rb:167 binds `light_ids` in the same way
      db.lights := db.lights[id := light.(credits := 0)];
      port.sent := port.sent + [TurnOff(light.deviceLabel)];
    }
  }

  /**
   * `resolve(db, rule_id)`: the light table and the command log end as
   * `ResolveRule` says; the result tells whether an exception escaped.
   */
  method Resolve(db: Database, port: LightPort, ruleId: int, faults: seq<Faults>) returns (raised: bool)
    modifies db`lights, port
    ensures var r := ResolveRule(old(db.lights), db.rules, db.ruleLights, ruleId, faults);
      && db.lights == r.lights
      && port.sent == old(port.sent) + r.sent
      && raised == r.raised
  {
    if ruleId !in db.rules {
      // `data[0][0]` on an empty result raises
      return true;
    }
    var rule := db.rules[ruleId];
    var ids := LightIdsOf(db.ruleLights, ruleId);
    var color := ColorOf(rule.color);
    ghost var lights0 := db.lights;
    ghost var sent0 := port.sent;
    var i := 0;
    raised := false;
    while i < |ids| && !raised
      invariant 0 <= i <= |ids|
      invariant var r := ResolveLights(lights0, ids, rule.credits, color, faults, i);
        db.lights == r.lights && port.sent == sent0 + r.sent && raised == r.raised
    {
      ghost var prev := ResolveLights(lights0, ids, rule.credits, color, faults, i);
      ghost var step := LightStep(prev.lights, ids[i], rule.credits, color, FaultAt(faults, i));
      raised := ResolveLight(db, port, ids[i], rule.credits, color, FaultAt(faults, i));
      ResolveLightsNext(lights0, ids, rule.credits, color, faults, i);
      assert port.sent == sent0 + (prev.sent + step.sent);
      i := i + 1;
    }
    if raised {
      RaisedSticks(lights0, ids, rule.credits, color, faults, i, |ids|);
    }
  }

  // ---------------------------------------------------------------------
  // callback

  /** The faults met while rule `r` is resolved. */
  function FaultsOf(faults: map<int, seq<Faults>>, r: int): seq<Faults>
  {
    if r in faults then faults[r] else []
  }

  /** The body of `rules.each` in `callback`, for rule `r`. */
  method VisitRule(db: Database, port: LightPort, r: int, now: int, faults: seq<Faults>)
    returns (raised: bool, armed: bool)
    modifies db`lights, port
    ensures armed == Armed(db.rules, r, now)
    ensures var step := RuleStep(old(db.lights), db.rules, db.ruleLights, r, now, faults);
      db.lights == step.lights && port.sent == old(port.sent) + step.sent && raised == step.raised
  {
    if r !in db.rules {
      // `times[0][0]` in `is_time?` on an empty result raises
      return true, false;
    }
    armed := IsTime(now, db.rules[r].start, db.rules[r].finish);
    raised := false;
    if armed {
      raised := Resolve(db, port, r, faults);
    }
  }


  /**
   * One iteration of `rules.each` in `callback`, seen from the whole loop:
   * after the rules `visited`, visiting `r` leaves the state `RunRules` gives
   * for `visited + [r]`.
   */
  method VisitNext(db: Database, port: LightPort, r: int, now: int, faults: map<int, seq<Faults>>,
                   ghost lights0: map<int, Light>, ghost sent0: seq<Command>, ghost visited: seq<int>)
    returns (raised: bool, armed: bool)
    requires var run := RunRules(lights0, db.rules, db.ruleLights, visited, now, faults);
      !run.raised && db.lights == run.lights && port.sent == sent0 + run.sent
    modifies db`lights, port
    ensures armed == Armed(db.rules, r, now)
    ensures var run := RunRules(lights0, db.rules, db.ruleLights, visited + [r], now, faults);
      db.lights == run.lights && port.sent == sent0 + run.sent && raised == run.raised
  {
    ghost var rules := db.rules;
    ghost var ruleLights := db.ruleLights;
    ghost var prev := RunRules(lights0, rules, ruleLights, visited, now, faults);
    ghost var step := RuleStep(prev.lights, rules, ruleLights, r, now, FaultsOf(faults, r));
    RunRulesNext(lights0, rules, ruleLights, visited, r, now, faults);
    raised, armed := VisitRule(db, port, r, now, FaultsOf(faults, r));
    assert db.rules == rules && db.ruleLights == ruleLights;
    assert port.sent == sent0 + (prev.sent + step.sent);
  }

  /**
   * `rules.each` in `callback`: the rows are visited in order until one
   * raises; `visited` is the prefix reached, ending at the raising rule, and
   * `fired` its armed rules.
   */
  method RunRows(db: Database, port: LightPort, rows: seq<int>, now: int, faults: map<int, seq<Faults>>)
    returns (fired: seq<int>, raised: bool, ghost visited: seq<int>)
    modifies db`lights, port
    ensures visited <= rows && (!raised ==> visited == rows)
    ensures fired == ArmedAmong(db.rules, visited, now)
    ensures var run := RunRules(old(db.lights), db.rules, db.ruleLights, visited, now, faults);
      db.lights == run.lights && port.sent == old(port.sent) + run.sent && raised == run.raised
    ensures raised ==> visited != [] && !RunRules(old(db.lights), db.rules, db.ruleLights, visited[..|visited| - 1], now, faults).raised
  {
    ghost var lights0 := db.lights;
    ghost var rules := db.rules;
    ghost var ruleLights := db.ruleLights;
    ghost var sent0 := port.sent;
    fired, raised, visited := [], false, [];
    var i := 0;
    while i < |rows| && !raised
      invariant 0 <= i <= |rows| && visited == rows[..i]
      invariant fired == ArmedAmong(rules, visited, now)
      invariant var run := RunRules(lights0, rules, ruleLights, visited, now, faults);
        db.lights == run.lights && port.sent == sent0 + run.sent && raised == run.raised
      invariant raised ==> i > 0 && !RunRules(lights0, rules, ruleLights, rows[..i - 1], now, faults).raised
    {
      var r := rows[i];
      ghost var before := visited;
      ArmedAmongNext(rules, visited, r, now);
      var armed;
      raised, armed := VisitNext(db, port, r, now, faults, lights0, sent0, visited);
      if armed {
        fired := fired + [r];
      }
      visited := visited + [r];
      i := i + 1;
      assert visited == rows[..i];
      assert rows[..i - 1] == before;
    }
    assert !raised ==> visited == rows;
    if raised {
      assert visited[..|visited| - 1] == rows[..i - 1];
    }
  }

  /**
   * `callback(db, uuid, data)`: the candidate rules are visited in the order
   * the query returns them, each at most once; `fired` lists, in order, the
   * visited rules that were armed and resolved; the lights and the log end as
   * `RunRules` says for the rules `visited`. Without an exception, every
   * candidate was visited; with one, the last visited rule raised it and
   * none before it did.
   */
  method Callback(db: Database, port: LightPort, uuid: string, now: int, faults: map<int, seq<Faults>>)
    returns (fired: seq<int>, raised: bool, ghost visited: seq<int>)
    modifies db`lights, port
    ensures var candidates := Candidates(db.ruleProfiles, db.ruleCallbacks, db.activeProfile, uuid);
      && Distinct(visited)
      && (forall r :: r in visited ==> r in candidates)
      && (!raised ==> forall r :: r in candidates ==> r in visited)
    ensures fired == ArmedAmong(db.rules, visited, now)
    ensures (forall r :: r in fired <==> r in visited && Armed(db.rules, r, now)) && Distinct(fired)
    ensures var run := RunRules(old(db.lights), db.rules, db.ruleLights, visited, now, faults);
      db.lights == run.lights && port.sent == old(port.sent) + run.sent && raised == run.raised
    ensures raised ==> visited != [] && !RunRules(old(db.lights), db.rules, db.ruleLights, visited[..|visited| - 1], now, faults).raised
  {
    // the rows of the INTERSECT query, in the order the database returns them
    var rows := ListRows(Candidates(db.ruleProfiles, db.ruleCallbacks, db.activeProfile, uuid));
    fired, raised, visited := RunRows(db, port, rows, now, faults);
    assert forall k :: 0 <= k < |visited| ==> visited[k] == rows[k];
    ArmedAmongSpec(db.rules, visited, now);
  }

  // ---------------------------------------------------------------------
  // add_rule

  /**
   * What `add_rule` did: returned a validation message, or inserted the
   * rule (returning nil), or met an SQLite exception part way, which it
   * rescues (also returning nil).
   */
  datatype AddOutcome = Rejected(message: string) | Added | Failed

  /** `callbacks.each`: one callback row per sensor. */
  method InsertCallbacks(db: Database, ruleId: int, sensors: seq<string>)
    modifies db`ruleCallbacks
    ensures db.ruleCallbacks == old(db.ruleCallbacks) + CallbackRows(ruleId, sensors)
  {
    ghost var rows0 := db.ruleCallbacks;
    for i := 0 to |sensors|
      invariant db.ruleCallbacks == rows0 + CallbackRows(ruleId, sensors[..i])
    {
      assert CallbackRows(ruleId, sensors[..i + 1]) == CallbackRows(ruleId, sensors[..i]) + [(ruleId, sensors[i])];
      db.ruleCallbacks := db.ruleCallbacks + [(ruleId, sensors[i])];
    }
    assert sensors[..|sensors|] == sensors;
  }

  /**
   * `lights.each`: look the label up and insert the junction row, until an
   * insert raises.
   */
  method InsertLights(db: Database, ruleId: int, labels: seq<string>) returns (failed: bool)
    modifies db`ruleLights
    ensures var r := LightRows(db.lights, ruleId, labels);
      db.ruleLights == old(db.ruleLights) + r.0 && failed == r.1
  {
    ghost var rows0 := db.ruleLights;
    ghost var lights := db.lights;
    failed := false;
    var i := 0;
    while i < |labels| && !failed
      invariant 0 <= i <= |labels|
      invariant var r := LightRows(lights, ruleId, labels[..i]);
        db.ruleLights == rows0 + r.0 && failed == r.1
    {
      ghost var prev := LightRows(lights, ruleId, labels[..i]).0;
      LightRowsNext(lights, ruleId, labels[..i], labels[i]);
      assert labels[..i + 1] == labels[..i] + [labels[i]];
      var ids := LabelIds(db.lights, labels[i]);
      if |ids| >= 2 {
        // more values than placeholders: the bind raises
        failed := true;
      } else if ids == {} {
        // the light id is left unbound: NULL
        db.ruleLights := db.ruleLights + [(ruleId, None)];
        assert db.ruleLights == rows0 + (prev + [(ruleId, None)]);
      } else {
        var x := Pick(ids);
        db.ruleLights := db.ruleLights + [(ruleId, Some(x))];
        assert db.ruleLights == rows0 + (prev + [(ruleId, Some(x))]);
      }
      i := i + 1;
    }
    if failed {
      LightRowsStick(lights, ruleId, labels, i);
    } else {
      assert labels[..i] == labels;
    }
  }

  /**
   * `add_rule(db, params)`: a form with an empty field is rejected with the
   * message of the first one and changes nothing. Otherwise the rule row is
   * inserted under the next rowid, then a callback row per sensor, a light
   * row per label, and finally the row tying the rule to profile -1; a
   * failing light insert ends the call, keeping the rows already inserted.
   */
  method AddRule(db: Database, p: RuleParams) returns (outcome: AddOutcome)
    requires db.Valid()
    modifies db`rules, db`ruleCallbacks, db`ruleLights, db`ruleProfiles, db`nextRuleId
    ensures db.Valid()
    ensures Validate(p).Some? ==> outcome == Rejected(Validate(p).value) && unchanged(db)
    ensures Validate(p).None? ==>
      var id := old(db.nextRuleId);
      var r := LightRows(db.lights, id, p.lights.value);
      && id !in old(db.rules)
      && db.nextRuleId == id + 1
      && db.rules == old(db.rules)[id := RuleOf(p)]
      && db.ruleCallbacks == old(db.ruleCallbacks) + CallbackRows(id, p.sensor.value)
      && db.ruleLights == old(db.ruleLights) + r.0
      && db.ruleProfiles == old(db.ruleProfiles) + (if r.1 then [] else [(id, -1)])
      && outcome == (if r.1 then Failed else Added)
  {
    var problem := Validate(p);
    if problem.Some? {
      return Rejected(problem.value);
    }
    var id := db.nextRuleId;
    db.rules := db.rules[id := RuleOf(p)];
    db.nextRuleId := id + 1;
    InsertCallbacks(db, id, p.sensor.value);
    var failed := InsertLights(db, id, p.lights.value);
    if failed {
      return Failed;
    }
    db.ruleProfiles := db.ruleProfiles + [(id, -1)];
    outcome := Added;
  }
}
