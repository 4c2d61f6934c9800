/** Outcomes of the assembler's operations: a value, or the Python exception that ends the run. */
module Common {

  /** The exceptions the assembler can raise on its own inputs. */
  datatype PyError =
    | IndexError          // a list indexed past its end
    | ValueError          // `max` of an empty list
    | NameError           // the `random` module is used but never imported
    | ZeroDivisionError   // the average weight of a path whose nodes carry no edge
    | NodeNotFound        // path enumeration from a node no longer in the graph
    | UnboundLocalError   // a tip bound that was never assigned

  datatype Outcome<+T> = Ok(value: T) | Crash(error: PyError)

  datatype Option<+T> = None | Some(value: T)
}
