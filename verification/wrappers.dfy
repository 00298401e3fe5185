/** Option and Result types shared by the model. `Err` stands for a Python
    exception that the original code lets escape. */
module Wrappers {

  datatype Option<+T> = None | Some(value: T)

  /** The ways in which the modelled Python code raises instead of returning. */
  datatype Fault =
    | MissingPresence(system: string)         // `myPresence.states` on None
    | NoRunnerUp(system: string)              // `system.factions[1]` on a one-faction list
    | UnknownSystem(name: string)             // attribute access on a failed lookup
    | MissingRecoveringStates(faction: string) // iterating `rf.get('recoveringStates')` == None
    | MissingReference                        // `refsystem['x']` with refsystem None

  datatype Result<+T> = Ok(value: T) | Err(fault: Fault)
}
