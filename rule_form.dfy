/**
 * The parameters `add_rule` (app.rb) receives from the rule form, the checks
 * it makes on them, and the junction rows it derives from them.
 */
module RuleForm {

  import opened Wrappers
  import opened Store
  import opened Query

  /** A form field that is either the empty string `''` or a value. */
  datatype Param<T> = Blank | Given(value: T)

  /**
   * The fields `add_rule` reads: `sensor` and `lights` are lists of
   * callback uuids and light labels; times and credits are integers once
   * stored in INTEGER columns.
   */
  datatype RuleParams = RuleParams(
    name: string,
    sensor: Param<seq<string>>,
    start: Param<int>,
    finish: Param<int>,
    credits: Param<int>,
    color: string,
    lights: Param<seq<string>>)

  /** The messages of the seven checks, in the order they are made. */
  const Messages: seq<string> :=
    ["no name set", "no sensors", "no start time", "no end time", "no credits", "no color", "no lights"]

  /** Which of the seven fields, in the order they are checked, is `''`. */
  function Blanks(p: RuleParams): (b: seq<bool>)
    ensures |b| == |Messages|
  {
    [p.name == "", p.sensor.Blank?, p.start.Blank?, p.finish.Blank?, p.credits.Blank?, p.color == "", p.lights.Blank?]
  }

  /** The validation chain of `add_rule`: the message of the first empty field, if any. */
  function Validate(p: RuleParams): Option<string>
  {
    if p.name == "" then Some("no name set")
    else if p.sensor.Blank? then Some("no sensors")
    else if p.start.Blank? then Some("no start time")
    else if p.finish.Blank? then Some("no end time")
    else if p.credits.Blank? then Some("no credits")
    else if p.color == "" then Some("no color")
    else if p.lights.Blank? then Some("no lights")
    else None
  }

  /** The check of field `k` reports exactly when field `k` is the first empty one. */
  lemma ValidateReportsFirstBlank(p: RuleParams, k: nat)
    requires k < |Messages|
    ensures Validate(p) == Some(Messages[k]) <==> Blanks(p)[k] && forall j :: 0 <= j < k ==> !Blanks(p)[j]
  {
    var b := Blanks(p);
    if Blanks(p)[k] && forall j :: 0 <= j < k ==> !b[j] {
      assert Validate(p) == Some(Messages[k]) by {
        if k > 0 { assert !b[0]; }
        if k > 1 { assert !b[1]; }
        if k > 2 { assert !b[2]; }
        if k > 3 { assert !b[3]; }
        if k > 4 { assert !b[4]; }
        if k > 5 { assert !b[5]; }
      }
    }
  }

  /** A form passes validation exactly when none of its seven fields is empty. */
  lemma ValidateAccepts(p: RuleParams)
    ensures Validate(p) == None <==> forall j :: 0 <= j < |Messages| ==> !Blanks(p)[j]
  {
    var b := Blanks(p);
    if Validate(p) == None {
      assert b == [false, false, false, false, false, false, false];
    } else {
      var j := if p.name == "" then 0 else if p.sensor.Blank? then 1 else if p.start.Blank? then 2
        else if p.finish.Blank? then 3 else if p.credits.Blank? then 4 else if p.color == "" then 5 else 6;
      assert b[j];
    }
  }

  /** The `rules` row a validated form inserts. */
  function RuleOf(p: RuleParams): Rule
    requires Validate(p) == None
  {
    Rule(p.name, p.start.value, p.finish.value, p.color, p.credits.value)
  }

  /** One `rule_callback_junction` row per sensor, in order. */
  function CallbackRows(ruleId: int, sensors: seq<string>): (rows: seq<(int, string)>)
    ensures |rows| == |sensors|
  {
    seq(|sensors|, i requires 0 <= i < |sensors| => (ruleId, sensors[i]))
  }

  /** The ids of the lights labelled `tag`: the rows of `SELECT id FROM lights where label=?`. */
  function LabelIds(lights: map<int, Light>, tag: string): set<int>
  {
    set id | id in lights && lights[id].deviceLabel == tag
  }

  /**
   * The `rule_light_junction` rows inserted for `labels`, and whether an
   * insert failed. The flattened bind `[rule_id, light_id]` gives NULL when
   * no light has the label, the light's id when one has, and more values
   * than placeholders, which raises, when several have; the rows inserted
   * before the failing one stay.
   */
  ghost function LightRows(lights: map<int, Light>, ruleId: int, labels: seq<string>): (r: (seq<(int, Option<int>)>, bool))
    ensures |r.0| <= |labels|
    ensures forall i :: 0 <= i < |r.0| ==> r.0[i].0 == ruleId
  {
    if labels == [] then ([], false)
    else
      var prev := LightRows(lights, ruleId, labels[..|labels| - 1]);
      var ids := LabelIds(lights, labels[|labels| - 1]);
      if prev.1 then prev
      else if |ids| >= 2 then (prev.0, true)
      else if ids == {} then (prev.0 + [(ruleId, None)], false)
      else
        HasMember(ids);
        var x :| x in ids;
        (prev.0 + [(ruleId, Some(x))], false)
  }

  /** One more label extends the rows by at most the row of that label. */
  lemma LightRowsNext(lights: map<int, Light>, ruleId: int, labels: seq<string>, tag: string)
    ensures var prev := LightRows(lights, ruleId, labels);
      var next := LightRows(lights, ruleId, labels + [tag]);
      var ids := LabelIds(lights, tag);
      && (prev.1 ==> next == prev)
      && (!prev.1 && |ids| >= 2 ==> next == (prev.0, true))
      && (!prev.1 && ids == {} ==> next == (prev.0 + [(ruleId, None)], false))
      && (!prev.1 && |ids| == 1 ==> forall x :: x in ids ==> next == (prev.0 + [(ruleId, Some(x))], false))
  {
    assert (labels + [tag])[..|labels|] == labels;
    var ids := LabelIds(lights, tag);
    if |ids| == 1 {
      forall x | x in ids
        ensures LightRows(lights, ruleId, labels + [tag]).0 == LightRows(lights, ruleId, labels).0 + [(ruleId, Some(x))] || LightRows(lights, ruleId, labels).1
      {
        SingletonMember(ids, x);
      }
    }
  }

  /** Once an insert has failed, further labels add nothing. */
  lemma {:induction false} LightRowsStick(lights: map<int, Light>, ruleId: int, labels: seq<string>, k: nat)
    requires k <= |labels| && LightRows(lights, ruleId, labels[..k]).1
    ensures LightRows(lights, ruleId, labels) == LightRows(lights, ruleId, labels[..k])
  {
    if k < |labels| {
      var prefix := labels[..|labels| - 1];
      assert prefix[..k] == labels[..k];
      LightRowsStick(lights, ruleId, prefix, k);
    } else {
      assert labels[..k] == labels;
    }
  }

  /** A set of one element holds no other. */
  lemma SingletonMember(s: set<int>, x: int)
    requires |s| == 1 && x in s
    ensures s == {x}
  {
    var rest := s - {x};
    assert s == rest + {x};
    assert |rest| == 0;
  }

  /**
   * Every row names a light that carries the label it was looked up by; a
   * NULL row stands for a label no light carries. The insert fails exactly
   * when some label is carried by several lights, and then the rows stop
   * just before the first such label.
   */
  lemma {:induction false} LightRowsSpec(lights: map<int, Light>, ruleId: int, labels: seq<string>)
    ensures var r := LightRows(lights, ruleId, labels);
      && (forall i :: 0 <= i < |r.0| ==>
            && (r.0[i].1 == None <==> LabelIds(lights, labels[i]) == {})
            && (r.0[i].1.Some? ==> r.0[i].1.value in lights && lights[r.0[i].1.value].deviceLabel == labels[i]))
      && (r.1 <==> exists i :: 0 <= i < |labels| && |LabelIds(lights, labels[i])| >= 2)
      && (!r.1 ==> |r.0| == |labels|)
      && (r.1 ==> |LabelIds(lights, labels[|r.0|])| >= 2)
      && (forall i :: 0 <= i < |r.0| ==> |LabelIds(lights, labels[i])| <= 1)
  {
    if labels != [] {
      var prefix := labels[..|labels| - 1];
      var tag := labels[|labels| - 1];
      assert labels == prefix + [tag];
      LightRowsSpec(lights, ruleId, prefix);
      LightRowsNext(lights, ruleId, prefix, tag);
    }
  }
}
