/**
 * One run of the decay tick of scripts/credit_helper.rb: one UPDATE
 * decrements every positive credit, then every light whose credit is now at
 * most 0 is sent `turn_off!`, one label at a time.
 */
module CreditHelper {

  import opened Credits
  import opened Store
  import opened Query

  /** The light table after `UPDATE Lights SET credits=credits-1 WHERE credits>0`. */
  function Decayed(lights: map<int, Light>): map<int, Light>
  {
    map id | id in lights :: lights[id].(credits := Decay(lights[id].credits))
  }

  /** The rows of `SELECT label FROM Lights where credits<=0`, by light id. */
  function OffIds(lights: map<int, Light>): set<int>
  {
    set id | id in lights && lights[id].credits <= 0
  }

  /** The `turn_off!` commands for the rows `ids`, in order. */
  function TurnOffs(lights: map<int, Light>, ids: seq<int>): (cmds: seq<Command>)
    requires forall i :: 0 <= i < |ids| ==> ids[i] in lights
    ensures |cmds| == |ids|
  {
    seq(|ids|, i requires 0 <= i < |ids| => TurnOff(lights[ids[i]].deviceLabel))
  }

  /**
   * One run of the script. `fails` holds the labels whose `turn_off!`
   * raises; that exception is not an `SQLite3::Exception`, so it ends the
   * script. The credits are decayed first; `switched` lists the rows
   * commanded off, each once, the last of them the failing one if the
   * script `crashed`; without a crash every selected light was commanded off.
   */
  method Tick(db: Database, port: LightPort, fails: set<string>) returns (crashed: bool, ghost switched: seq<int>)
    modifies db`lights, port
    ensures db.lights == Decayed(old(db.lights))
    ensures Distinct(switched)
    ensures forall i :: 0 <= i < |switched| ==> switched[i] in db.lights && db.lights[switched[i]].credits <= 0
    ensures port.sent == old(port.sent) + TurnOffs(db.lights, switched)
    ensures forall i :: 0 <= i < |switched| - 1 ==> db.lights[switched[i]].deviceLabel !in fails
    ensures crashed <==> switched != [] && db.lights[switched[|switched| - 1]].deviceLabel in fails
    ensures !crashed ==> forall id :: id in OffIds(db.lights) ==> id in switched
  {
    db.lights := Decayed(db.lights);
    var rows := ListRows(OffIds(db.lights));
    ghost var sent0 := port.sent;
    ghost var lights := db.lights;
    forall j | 0 <= j < |rows|
      ensures rows[j] in lights && lights[rows[j]].credits <= 0
    {
      assert rows[j] in rows;
    }
    crashed, switched := false, [];
    var i := 0;
    while i < |rows| && !crashed
      invariant 0 <= i <= |rows| && switched == rows[..i] && db.lights == lights
      invariant forall j :: 0 <= j < |rows| ==> rows[j] in lights && lights[rows[j]].credits <= 0
      invariant port.sent == sent0 + TurnOffs(db.lights, switched)
      invariant forall j :: 0 <= j < i - 1 ==> db.lights[rows[j]].deviceLabel !in fails
      invariant crashed <==> i > 0 && db.lights[rows[i - 1]].deviceLabel in fails
    {
      var tag := db.lights[rows[i]].deviceLabel;
      port.sent := port.sent + [TurnOff(tag)];
      crashed := tag in fails;
      assert TurnOffs(db.lights, switched + [rows[i]]) == TurnOffs(db.lights, switched) + [TurnOff(tag)];
      switched := switched + [rows[i]];
      i := i + 1;
      assert switched == rows[..i];
    }
    assert !crashed ==> switched == rows;
  }

  /**
   * A tick decrements every positive credit by exactly one, keeps 0, -1 and
   * every other non-positive credit, and keeps every light's id and label.
   */
  lemma DecayedSpec(lights: map<int, Light>, id: int)
    ensures id in Decayed(lights) <==> id in lights
    ensures id in lights ==>
      && Decayed(lights)[id].deviceLabel == lights[id].deviceLabel
      && (lights[id].credits > 0 ==> Decayed(lights)[id].credits == lights[id].credits - 1)
      && (lights[id].credits <= 0 ==> Decayed(lights)[id].credits == lights[id].credits)
  {
  }

  /**
   * The lights commanded off after a tick are exactly those whose credit was
   * at most 1 before it: the ones that just crossed from 1, the ones already
   * at 0, and the -1 ones. None of them holds a positive credit.
   */
  lemma OffAfterTick(lights: map<int, Light>, id: int)
    ensures id in OffIds(Decayed(lights)) <==> id in lights && lights[id].credits <= 1
    ensures id in OffIds(Decayed(lights)) ==> Decayed(lights)[id].credits <= 0
  {
  }

  /** The light table after `k` ticks. */
  function DecayedTimes(lights: map<int, Light>, k: nat): map<int, Light>
  {
    if k == 0 then lights else Decayed(DecayedTimes(lights, k - 1))
  }

  /** After `k` ticks every light keeps its label and holds `Ticks` of its credit. */
  lemma {:induction false} DecayedTimesCredits(lights: map<int, Light>, k: nat, id: int)
    requires id in lights
    ensures id in DecayedTimes(lights, k)
    ensures DecayedTimes(lights, k)[id] == lights[id].(credits := Ticks(lights[id].credits, k))
  {
    if k > 0 {
      DecayedTimesCredits(lights, k - 1, id);
    }
  }

  /**
   * A light switched on with credit `n > 0` is first selected for turning off
   * by tick `n`, and by every tick after it.
   */
  lemma SelectedFromTickN(lights: map<int, Light>, id: int, k: nat)
    requires id in lights && lights[id].credits > 0
    ensures id in OffIds(DecayedTimes(lights, k)) <==> k >= lights[id].credits
  {
    DecayedTimesCredits(lights, k, id);
    TicksFromPositive(lights[id].credits, k);
  }

  // ---------------------------------------------------------------------
  // The off selection as the script writes it

  /** A light held on "for ever" (-1) is selected for `turn_off!` by every tick. */
  lemma ForeverLightSwitchedOff(lights: map<int, Light>, id: int, k: nat)
    requires id in lights && lights[id].credits == Forever
    ensures id in OffIds(DecayedTimes(lights, k + 1))
  {
    DecayedTimesCredits(lights, k + 1, id);
    TicksFixNonPositive(Forever, k + 1);
  }

  /** The evidently intended selection, `credits=0`: lights that are off, not those held on. */
  function IntendedOffIds(lights: map<int, Light>): set<int>
  {
    set id | id in lights && lights[id].credits == 0
  }

  /**
   * With the intended selection a tick turns off exactly the lights at 1 or
   * 0 before it, and never a -1 light, however many ticks have run.
   */
  lemma IntendedOffAfterTick(lights: map<int, Light>, id: int, k: nat)
    requires id in lights
    ensures id in IntendedOffIds(Decayed(lights)) <==> lights[id].credits == 1 || lights[id].credits == 0
    ensures lights[id].credits == Forever ==> id !in IntendedOffIds(DecayedTimes(lights, k))
  {
    DecayedTimesCredits(lights, k, id);
    if lights[id].credits == Forever {
      TicksFixNonPositive(Forever, k);
    }
  }
}
