/** A formula file as the parser hands it on: nothing merged, nothing expanded yet. */
module Formula {
  import opened Wrappers

  /** `rest` stands for the fields that composition only ever carries along. */
  datatype Step = Step(
    id: Option<string>,
    title: Option<string>,
    description: Option<string>,
    assignee: Option<string>,
    needs: seq<string>,
    metadata: map<string, string>,
    condition: Option<string>,
    checkPath: Option<string>,
    expand: Option<string>,
    expandVars: map<string, string>,
    children: seq<Step>,
    rest: string)

  /** A refusal belongs to a step, or, with no step, to the formula. */
  datatype Refusal = Refusal(what: string, step: Option<string>)

  datatype RawFormula = RawFormula(
    name: Option<string>,
    description: Option<string>,
    formulaCompiler: Option<string>,
    contract: Option<string>,
    kind: Option<string>,
    vars: map<string, Option<string>>,
    parents: seq<string>,
    template: seq<Step>,
    steps: seq<Step>)

  datatype Walked = Walked(raw: RawFormula, violations: seq<string>, refusals: seq<Refusal>, ignored: seq<string>)

  /** The formula files by the bare name the layers resolve. */
  type Library = map<string, Walked>

  predicate SameId(s: Step, t: Step) {
    s.id.Some? && s.id == t.id
  }

  ghost predicate UniqueIds(steps: seq<Step>) {
    forall i, j :: 0 <= i < j < |steps| ==> !SameId(steps[i], steps[j])
  }

  ghost function IdsOf(steps: seq<Step>): set<string> {
    set s | s in steps && s.id.Some? :: s.id.value
  }
}
