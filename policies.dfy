/**
 * The policy configuration as decoded from a policy file, and the Policy,
 * PolicyParam and output objects `load` builds from it.
 */
module Policies {
  import opened Wrappers
  import opened Triggers

  /** `trigger: {intent?, slots?, changed_slots?, state?}`; `None` is an absent key. */
  datatype TriggerConfig = TriggerConfig(
    intent: Option<string>,
    slots: Option<ConfigValue>,
    changedSlots: Option<ConfigValue>,
    state: Option<ConfigValue>)

  /** `params: [{name, type, value, required?, options?}]`. */
  datatype ParamConfig = ParamConfig(
    name: string,
    kind: string,
    value: string,
    required: Option<bool>,
    options: Option<seq<string>>)

  /** One element of an array `output`. */
  datatype OutputItemConfig = OutputItemConfig(assertion: string, session: string, result: string)

  /** `output`: a function name, an array of conditional outputs, or any other value. */
  datatype OutputConfig =
    | OutputName(name: string)
    | OutputItems(items: seq<OutputItemConfig>)
    | OutputOther

  /** One policy entry; `params` is `None` when it is absent or not an array. */
  datatype PolicyConfig = PolicyConfig(
    trigger: TriggerConfig,
    params: Option<seq<ParamConfig>>,
    output: OutputConfig)

  /** PolicyParam: descriptive metadata handed to the outputs. */
  datatype Param = Param(name: string, kind: string, value: string, required: bool, options: seq<string>)

  /** PolicyFunctionOutput and PolicyOutput. */
  datatype Output =
    | FunctionOutput(name: string)
    | ConditionalOutput(assertion: string, session: string, result: string)

  datatype Policy = Policy(trigger: Trigger, params: map<string, Param>, outputs: seq<Output>)

  /** `new PolicyParam(...)` with the `??` defaults of `load`. */
  function BuildParam(c: ParamConfig): (p: Param)
    ensures p.name == c.name && p.kind == c.kind && p.value == c.value
    ensures p.required == (c.required == Some(true))
    ensures c.options.Some? ==> p.options == c.options.value
    ensures c.options.None? ==> p.options == []
  {
    Param(c.name, c.kind, c.value, c.required.GetOr(false), c.options.GetOr([]))
  }

  /** `new PolicyOutput(...)` for one element of an array `output`. */
  function BuildItem(c: OutputItemConfig): Output {
    ConditionalOutput(c.assertion, c.session, c.result)
  }
}
