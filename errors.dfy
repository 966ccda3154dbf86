/** What the functions of dockstring/utils.py raise or return. */
module Errors {

  /** The reason carried by a DockingError, standing in for its message text. */
  datatype Reason =
    | HydrogenAtomsLeft                    // "hydrogen atoms couldn't be removed"
    | IncorrectFragmentCount(count: nat)   // "Incorrect number of molecular fragments (<count>)"
    | MmffOptimizationFailed               // "MMFF optimization of ligand failed"
    | UffOptimizationFailed                // "UFF optimization of ligand failed"
    | ParametersNotAvailable               // "Cannot optimize ligand: parameters not available"

  /** The exceptions that leave the modelled functions. */
  datatype Exception =
    | DockingError(reason: Reason)
    | KekulizeException
    | OtherRDKitError                      // any other RDKit exception, e.g. AtomValenceException
    | AssertionError

  /** A returned value or a raised exception. */
  datatype Result<T> = Ok(value: T) | Raised(exc: Exception)

  datatype Option<T> = None | Some(value: T)
}
