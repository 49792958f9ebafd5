/**
 * What `resolve` (app.rb) does to the lights of one rule, as functions on
 * values: the per-light credit decision, the fold over the rule's light ids,
 * and the lemmas about them. The method `Greenlights.Resolve` is proved
 * against `ResolveRule`.
 */
module Resolution {

  import opened Wrappers
  import opened Colors
  import opened Store

  /**
   * Which device calls raise while one light is resolved: the first
   * `set_color`, `turn_on!`, and the `set_color` retried in the rescue.
   * A `turn_off!` failure is swallowed, so it needs no input.
   */
  datatype Faults = Faults(setColorRaises: bool, turnOnRaises: bool, retryRaises: bool)

  /** No device call raises. */
  const NoFaults := Faults(false, false, false)

  /**
   * The faults met by the `i`-th light of a rule's loop; lights beyond the
   * end of `faults` meet none.
   */
  function FaultAt(faults: seq<Faults>, i: nat): Faults
  {
    if i < |faults| then faults[i] else NoFaults
  }

  /** Lights, the commands sent so far, and whether an exception escaped. */
  datatype Run = Run(lights: map<int, Light>, sent: seq<Command>, raised: bool)

  /** `after` has the same light ids as `before`, each with the same label. */
  predicate SameRows(before: map<int, Light>, after: map<int, Light>)
  {
    && after.Keys == before.Keys
    && forall id :: id in before ==> after[id].deviceLabel == before[id].deviceLabel
  }

  /** Whether the turn-on branch is taken for rule credit `c` and stored credit `s`. */
  predicate TurnsOn(c: int, s: int)
  {
    c >= s || c == -1
  }

  /**
   * The credit a light ends with once a rule with credit `c` has resolved it:
   * -1 and 0 are written as they are, any other credit only ever raises the
   * stored one.
   */
  function Target(c: int, s: int): int
  {
    if c == -1 || c == 0 then c else if c >= s then c else s
  }

  /**
   * One iteration of `light_ids.each`. The light row is read from the
   * current lights; a NULL or dangling id makes `light_info[0][0]` raise.
   */
  function LightStep(lights: map<int, Light>, lightId: Option<int>, c: int, color: Color, f: Faults): Run
  {
    if lightId.None? || lightId.value !in lights then
      Run(lights, [], true)
    else
      var id := lightId.value;
      var light := lights[id];
      if TurnsOn(c, light.credits) then
        var first := if f.setColorRaises then [SetColor(light.deviceLabel, color)]
                     else [SetColor(light.deviceLabel, color), TurnOn(light.deviceLabel)];
        var failed := f.setColorRaises || f.turnOnRaises;
        var retry := if failed then [SetColor(light.deviceLabel, color)] else [];
        // The `ensure` clause writes the credit whatever the device did. The
        // source binds the whole `light_ids` list where this writes `id`.
        Run(lights[id := light.(credits := c)], first + retry, failed && f.retryRaises)
      else if c == 0 then
        // Credit 0 is written before `turn_off!`, whose failure is swallowed.
        Run(lights[id := light.(credits := 0)], [TurnOff(light.deviceLabel)], false)
      else
        Run(lights, [], false)
  }

  /** The first `k` iterations over `ids`; after an exception nothing more happens. */
  function ResolveLights(lights: map<int, Light>, ids: seq<Option<int>>, c: int, color: Color,
                         faults: seq<Faults>, k: nat): Run
    requires k <= |ids|
  {
    if k == 0 then Run(lights, [], false)
    else
      var prev := ResolveLights(lights, ids, c, color, faults, k - 1);
      if prev.raised then prev
      else
        var step := LightStep(prev.lights, ids[k - 1], c, color, FaultAt(faults, k - 1));
        Run(step.lights, prev.sent + step.sent, step.raised)
  }

  /** The light ids joined to `ruleId` in rule_light_junction, in row order. */
  function LightIdsOf(ruleLights: seq<(int, Option<int>)>, ruleId: int): seq<Option<int>>
  {
    if ruleLights == [] then []
    else
      var rest := LightIdsOf(ruleLights[1..], ruleId);
      if ruleLights[0].0 == ruleId then [ruleLights[0].1] + rest else rest
  }

  /** The light ids of a rule are exactly the `light_id`s of its junction rows, NULL included. */
  lemma {:induction false} LightIdsOfSpec(ruleLights: seq<(int, Option<int>)>, ruleId: int)
    ensures |LightIdsOf(ruleLights, ruleId)| <= |ruleLights|
    ensures forall x :: x in LightIdsOf(ruleLights, ruleId) <==> (ruleId, x) in ruleLights
  {
    if ruleLights != [] {
      LightIdsOfSpec(ruleLights[1..], ruleId);
      assert forall x :: (ruleId, x) in ruleLights <==> (ruleId, x) == ruleLights[0] || (ruleId, x) in ruleLights[1..];
    }
  }

  /** `resolve(db, rule_id)`: a missing rule row raises; otherwise every joined light is resolved. */
  function ResolveRule(lights: map<int, Light>, rules: map<int, Rule>, ruleLights: seq<(int, Option<int>)>,
                       ruleId: int, faults: seq<Faults>): Run
  {
    if ruleId !in rules then Run(lights, [], true)
    else
      var ids := LightIdsOf(ruleLights, ruleId);
      ResolveLights(lights, ids, rules[ruleId].credits, ColorOf(rules[ruleId].color), faults, |ids|)
  }

  // ---------------------------------------------------------------------
  // One light

  /** The written credit is always `Target`, and only the processed light changes. */
  lemma LightStepTarget(lights: map<int, Light>, id: int, c: int, color: Color, f: Faults)
    requires id in lights
    ensures var step := LightStep(lights, Some(id), c, color, f);
      && step.lights.Keys == lights.Keys
      && step.lights[id] == lights[id].(credits := Target(c, lights[id].credits))
      && forall j :: j in lights && j != id ==> step.lights[j] == lights[j]
  {
  }

  /**
   * Turn-on branch: set colour then turn on, and on a raise only `set_color`
   * is retried, once; the rule's credit is stored whatever the device did.
   */
  lemma TurnOnBranch(lights: map<int, Light>, id: int, c: int, color: Color, f: Faults)
    requires id in lights && TurnsOn(c, lights[id].credits)
    ensures var step := LightStep(lights, Some(id), c, color, f);
      var tag := lights[id].deviceLabel;
      && step.lights[id].credits == c
      && step.sent[0] == SetColor(tag, color)
      && (TurnOn(tag) in step.sent <==> !f.setColorRaises)
      && (!f.setColorRaises && !f.turnOnRaises ==> step.sent == [SetColor(tag, color), TurnOn(tag)])
      && (f.setColorRaises || f.turnOnRaises ==> step.sent[|step.sent| - 1] == SetColor(tag, color)
                                                 && |step.sent| == (if f.setColorRaises then 2 else 3))
      && (step.raised <==> (f.setColorRaises || f.turnOnRaises) && f.retryRaises)
  {
  }

  /** A smaller positive (or other non-special) rule credit never lowers a banked credit and sends nothing. */
  lemma SmallerCreditKeepsBank(lights: map<int, Light>, id: int, c: int, color: Color, f: Faults)
    requires id in lights && c < lights[id].credits && c != -1 && c != 0
    ensures LightStep(lights, Some(id), c, color, f) == Run(lights, [], false)
  {
  }

  /** Off branch: credit 0 against a positive credit stores 0 and sends one turn-off, failure swallowed. */
  lemma OffBranch(lights: map<int, Light>, id: int, color: Color, f: Faults)
    requires id in lights && lights[id].credits > 0
    ensures var step := LightStep(lights, Some(id), 0, color, f);
      && step.lights == lights[id := lights[id].(credits := 0)]
      && step.sent == [TurnOff(lights[id].deviceLabel)]
      && !step.raised
  {
  }

  /** Credit 0 against a stored credit <= 0 takes the turn-on branch instead. */
  lemma ZeroOnDarkLightTurnsOn(lights: map<int, Light>, id: int, color: Color, f: Faults)
    requires id in lights && lights[id].credits <= 0
    ensures var step := LightStep(lights, Some(id), 0, color, f);
      step.sent[0] == SetColor(lights[id].deviceLabel, color) && step.lights[id].credits == 0
  {
  }

  /** A NULL or dangling light id raises before any command or write. */
  lemma MissingLightRaises(lights: map<int, Light>, lightId: Option<int>, c: int, color: Color, f: Faults)
    requires lightId.None? || lightId.value !in lights
    ensures LightStep(lights, lightId, c, color, f) == Run(lights, [], true)
  {
  }

  // ---------------------------------------------------------------------
  // All the lights of a rule

  /** One more iteration after `k` when no exception escaped so far. */
  lemma ResolveLightsNext(lights: map<int, Light>, ids: seq<Option<int>>, c: int, color: Color,
                          faults: seq<Faults>, k: nat)
    requires k < |ids|
    requires !ResolveLights(lights, ids, c, color, faults, k).raised
    ensures var prev := ResolveLights(lights, ids, c, color, faults, k);
      var step := LightStep(prev.lights, ids[k], c, color, FaultAt(faults, k));
      ResolveLights(lights, ids, c, color, faults, k + 1) == Run(step.lights, prev.sent + step.sent, step.raised)
  {
  }

  /** Once an exception escaped, later iterations change nothing. */
  lemma {:induction false} RaisedSticks(lights: map<int, Light>, ids: seq<Option<int>>, c: int, color: Color,
                                        faults: seq<Faults>, i: nat, k: nat)
    requires i <= k <= |ids|
    requires ResolveLights(lights, ids, c, color, faults, i).raised
    ensures ResolveLights(lights, ids, c, color, faults, k) == ResolveLights(lights, ids, c, color, faults, i)
  {
    if k > i {
      RaisedSticks(lights, ids, c, color, faults, i, k - 1);
    }
  }

  lemma TargetIdempotent(c: int, s: int)
    ensures Target(c, Target(c, s)) == Target(c, s)
  {
  }

  /** Resolution keeps the light table's ids and every light's label. */
  lemma {:induction false} ResolveLightsRows(lights: map<int, Light>, ids: seq<Option<int>>, c: int,
                                             color: Color, faults: seq<Faults>, k: nat)
    requires k <= |ids|
    ensures SameRows(lights, ResolveLights(lights, ids, c, color, faults, k).lights)
  {
    if k > 0 {
      ResolveLightsRows(lights, ids, c, color, faults, k - 1);
    }
  }

  /** A light not joined to the rule keeps its row. */
  lemma {:induction false} ResolveLightsUntouched(lights: map<int, Light>, ids: seq<Option<int>>, c: int,
                                                  color: Color, faults: seq<Faults>, k: nat, id: int)
    requires k <= |ids| && id in lights && Some(id) !in ids[..k]
    ensures var after := ResolveLights(lights, ids, c, color, faults, k).lights;
      id in after && after[id] == lights[id]
  {
    if k > 0 {
      assert ids[..k] == ids[..k - 1] + [ids[k - 1]];
      ResolveLightsUntouched(lights, ids, c, color, faults, k - 1, id);
      var prev := ResolveLights(lights, ids, c, color, faults, k - 1);
      var x := ids[k - 1];
      if !prev.raised && x.Some? && x.value in prev.lights {
        LightStepTarget(prev.lights, x.value, c, color, FaultAt(faults, k - 1));
      }
    }
  }

  /** Every light holds either its old credit or `Target` of it, whatever the device did. */
  lemma {:induction false} ResolveLightsBounded(lights: map<int, Light>, ids: seq<Option<int>>, c: int,
                                                color: Color, faults: seq<Faults>, k: nat, id: int)
    requires k <= |ids| && id in lights
    ensures var after := ResolveLights(lights, ids, c, color, faults, k).lights;
      && id in after
      && (after[id].credits == lights[id].credits || after[id].credits == Target(c, lights[id].credits))
  {
    if k > 0 {
      ResolveLightsBounded(lights, ids, c, color, faults, k - 1, id);
      var prev := ResolveLights(lights, ids, c, color, faults, k - 1);
      var x := ids[k - 1];
      if !prev.raised && x.Some? && x.value in prev.lights {
        LightStepTarget(prev.lights, x.value, c, color, FaultAt(faults, k - 1));
        TargetIdempotent(c, lights[id].credits);
      }
    }
  }

  /** When no exception escaped, every joined light holds `Target` of its old credit. */
  lemma {:induction false} ResolveLightsExact(lights: map<int, Light>, ids: seq<Option<int>>, c: int,
                                              color: Color, faults: seq<Faults>, k: nat, id: int)
    requires k <= |ids| && id in lights && Some(id) in ids[..k]
    requires !ResolveLights(lights, ids, c, color, faults, k).raised
    ensures var after := ResolveLights(lights, ids, c, color, faults, k).lights;
      id in after && after[id].credits == Target(c, lights[id].credits)
  {
    var prev := ResolveLights(lights, ids, c, color, faults, k - 1);
    var x := ids[k - 1];
    assert ids[..k] == ids[..k - 1] + [x];
    ResolveLightsBounded(lights, ids, c, color, faults, k - 1, id);
    LightStepTarget(prev.lights, id, c, color, FaultAt(faults, k - 1));
    if x == Some(id) {
      if Some(id) in ids[..k - 1] {
        ResolveLightsExact(lights, ids, c, color, faults, k - 1, id);
        TargetIdempotent(c, lights[id].credits);
      } else {
        ResolveLightsUntouched(lights, ids, c, color, faults, k - 1, id);
      }
    } else {
      assert x.Some? && x.value in prev.lights;
      LightStepTarget(prev.lights, x.value, c, color, FaultAt(faults, k - 1));
      ResolveLightsExact(lights, ids, c, color, faults, k - 1, id);
    }
  }

  /** No joined light is missing when resolution ran to the end without an exception. */
  lemma {:induction false} ResolveLightsFindsEveryLight(lights: map<int, Light>, ids: seq<Option<int>>, c: int,
                                                        color: Color, faults: seq<Faults>, k: nat)
    requires k <= |ids|
    requires !ResolveLights(lights, ids, c, color, faults, k).raised
    ensures forall i :: 0 <= i < k ==> ids[i].Some? && ids[i].value in lights
  {
    if k > 0 {
      ResolveLightsFindsEveryLight(lights, ids, c, color, faults, k - 1);
      ResolveLightsRows(lights, ids, c, color, faults, k - 1);
    }
  }

  /** With a positive rule credit, no light's credit goes down. */
  lemma PositiveCreditNeverLowers(lights: map<int, Light>, ids: seq<Option<int>>, c: int, color: Color,
                                  faults: seq<Faults>, id: int)
    requires c > 0 && id in lights
    ensures var after := ResolveLights(lights, ids, c, color, faults, |ids|).lights;
      id in after && after[id].credits >= lights[id].credits
  {
    ResolveLightsBounded(lights, ids, c, color, faults, |ids|, id);
  }

  /**
   * Resolving the same lights twice leaves the same credits as resolving
   * them once, when neither pass raised: a repeated firing never downgrades.
   */
  lemma ResolveTwiceSameLights(lights: map<int, Light>, ids: seq<Option<int>>, c: int, color: Color,
                               faults1: seq<Faults>, faults2: seq<Faults>)
    requires !ResolveLights(lights, ids, c, color, faults1, |ids|).raised
    requires !ResolveLights(ResolveLights(lights, ids, c, color, faults1, |ids|).lights, ids, c, color, faults2, |ids|).raised
    ensures var once := ResolveLights(lights, ids, c, color, faults1, |ids|).lights;
      ResolveLights(once, ids, c, color, faults2, |ids|).lights == once
  {
    var once := ResolveLights(lights, ids, c, color, faults1, |ids|).lights;
    var twice := ResolveLights(once, ids, c, color, faults2, |ids|).lights;
    ResolveLightsRows(lights, ids, c, color, faults1, |ids|);
    ResolveLightsRows(once, ids, c, color, faults2, |ids|);
    assert ids[..|ids|] == ids;
    forall id | id in once
      ensures twice[id] == once[id]
    {
      if Some(id) in ids {
        ResolveLightsExact(lights, ids, c, color, faults1, |ids|, id);
        ResolveLightsExact(once, ids, c, color, faults2, |ids|, id);
        TargetIdempotent(c, lights[id].credits);
      } else {
        ResolveLightsUntouched(lights, ids, c, color, faults1, |ids|, id);
        ResolveLightsUntouched(once, ids, c, color, faults2, |ids|, id);
      }
    }
  }

  // ---------------------------------------------------------------------
  // The credit UPDATE as the source writes it

  /**
   * `UPDATE lights SET credits=? WHERE id=?` bound to `[credits, light_ids]`:
   * the driver flattens the parameters to `[c] + lightIds`. With one joined
   * light this is the intended write; with none the id is unbound (NULL) and
   * no row matches; with two or more there are more values than placeholders
   * and the statement fails (None).
   */
  function UpdateAsWritten(lights: map<int, Light>, c: int, lightIds: seq<int>): Option<map<int, Light>>
  {
    var params := [c] + lightIds;
    if |params| > 2 then None
    else if |params| < 2 || params[1] !in lights then Some(lights)
    else Some(lights[params[1] := lights[params[1]].(credits := c)])
  }

  /** The as-written UPDATE is the keyed write exactly when the rule has a single light. */
  lemma UpdateAsWrittenOneLight(lights: map<int, Light>, c: int, id: int)
    requires id in lights
    ensures UpdateAsWritten(lights, c, [id]) == Some(lights[id := lights[id].(credits := c)])
  {
  }

  /**
   * For a rule with two lights the as-written UPDATE fails, so the turn-on
   * branch stores nothing, while the keyed write stores the rule's credit.
   */
  lemma UpdateAsWrittenTwoLights(lights: map<int, Light>, c: int, a: int, b: int, color: Color, f: Faults)
    requires a in lights && b in lights && TurnsOn(c, lights[a].credits)
    ensures UpdateAsWritten(lights, c, [a, b]).None?
    ensures LightStep(lights, Some(a), c, color, f).lights[a].credits == c
  {
  }
}
