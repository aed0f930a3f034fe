/** Failure-carrying results for the pipeline. Every exception the pandas code
    can raise on a modelled path becomes a `Fault`; a missing cell (NaN/NaT) is
    not a fault but `None` in a cell. */
module Wrappers {

  /** A possibly missing value. In a table cell `None` stands for NaN / NaT. */
  datatype Option<+T> = None | Some(value: T)

  /** The exceptions of the modelled code paths. */
  datatype Fault =
    | KeyError(key: string)              // a missing column label or dictionary key
    | IndexError                         // positional access `iloc[0]` on an empty axis
    | LengthMismatch(axis: nat, labels: nat) // `df.columns = labels` with the wrong number of labels
    | NotUnique(column: string)           // a merge key label that occurs more than once
    | ParseError(text: string)           // `to_datetime` on a value that is not a date or time
    | NotDatetimeLike(column: string)     // the `.dt` accessor on a column that holds no timestamps
    | MissingSheet(sheet: string)        // `read_excel` on a sheet name the workbook lacks (a ValueError)
    | BadLabel                           // a datatype cell that is not text, so not a label of this model
    | Unbound                            // a local variable read before it was ever assigned

  /** Success with a value, or the fault that aborted the computation. Usable with `:-`. */
  datatype Result<+T> = Ok(value: T) | Err(fault: Fault) {
    predicate IsFailure() {
      Err?
    }

    function PropagateFailure<U>(): Result<U>
      requires Err?
    {
      Err(fault)
    }

    function Extract(): T
      requires Ok?
    {
      value
    }
  }
}
