/**
 * The state the core reads and writes: the app's SQLite tables, held as
 * fields of one `Database` object that the operations update in place, and
 * the bulbs, seen only through the log of commands sent to them.
 */
module Store {

  import opened Wrappers
  import opened Colors

  /** A row of `lights`: the label that addresses the bulb and its stored credit. */
  datatype Light = Light(deviceLabel: string, credits: int)

  /** A row of `rules` (start and end are seconds since midnight). */
  datatype Rule = Rule(name: string, start: int, finish: int, color: string, credits: int)

  /** A command sent to the bulbs addressed by a label. */
  datatype Command = SetColor(target: string, color: Color) | TurnOn(target: string) | TurnOff(target: string)

  class Database {
    /** lights(id, label, credits) */
    var lights: map<int, Light>
    /** rules(id, name, start_time, end_time, color, credits) */
    var rules: map<int, Rule>
    /** rule_light_junction(rule_id, light_id), in insertion order; light_id may be NULL */
    var ruleLights: seq<(int, Option<int>)>
    /** rule_profile_junction(rule_id, profile_id) */
    var ruleProfiles: seq<(int, int)>
    /** rule_callback_junction(rule_id, callback_uuid) */
    var ruleCallbacks: seq<(int, string)>
    /** The one row of active_profile; None is NULL. */
    var activeProfile: Option<int>
    /** The rowid the next inserted rule receives. */
    var nextRuleId: int

    /** Every rule id in the tables was handed out before `nextRuleId`. */
    ghost predicate Valid()
      reads this
    {
      && (forall id :: id in rules ==> id < nextRuleId)
      && (forall i :: 0 <= i < |ruleLights| ==> ruleLights[i].0 < nextRuleId)
      && (forall i :: 0 <= i < |ruleProfiles| ==> ruleProfiles[i].0 < nextRuleId)
      && (forall i :: 0 <= i < |ruleCallbacks| ==> ruleCallbacks[i].0 < nextRuleId)
    }

    /** Freshly installed tables: all empty, and the active profile row holds NULL. */
    constructor ()
      ensures Valid()
      ensures lights == map[] && rules == map[]
      ensures ruleLights == [] && ruleProfiles == [] && ruleCallbacks == []
      ensures activeProfile == None
    {
      lights, rules := map[], map[];
      ruleLights, ruleProfiles, ruleCallbacks := [], [], [];
      activeProfile := None;
      nextRuleId := 1;
    }
  }

  /** The bulbs: every command issued to them, in order, whether or not it raised. */
  class LightPort {
    var sent: seq<Command>

    constructor ()
      ensures sent == []
    {
      sent := [];
    }
  }
}
