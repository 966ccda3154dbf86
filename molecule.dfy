/** The decision rules of `check_mol` and `refine_mol_with_ff` in dockstring/utils.py, over what
    RDKit reports about a molecule: its atoms' atomic numbers, its number of fragments, whether
    force-field parameters exist for it, and how an optimisation run ends. */
module MolChecks {
  import opened Errors

  // ---------------------------------------------------------------------------
  // check_mol
  // ---------------------------------------------------------------------------

  /** Atomic number 0: a dummy atom. */
  predicate HasDummyAtom(atomicNumbers: seq<nat>) {
    exists i :: 0 <= i < |atomicNumbers| && atomicNumbers[i] == 0
  }

  /** `check_mol`: no atom with atomic number 0, then exactly one fragment. */
  function CheckMol(atomicNumbers: seq<nat>, fragmentCount: nat): (r: Result<()>)
    ensures r.Ok? <==> !HasDummyAtom(atomicNumbers) && fragmentCount == 1
    ensures r.Raised? ==> r.exc.DockingError?
  {
    if 0 in atomicNumbers then Raised(DockingError(HydrogenAtomsLeft))
    else if fragmentCount != 1 then Raised(DockingError(IncorrectFragmentCount(fragmentCount)))
    else Ok(())
  }

  /** The atom check comes first: a dummy atom is reported whatever the fragment count. */
  lemma DummyAtomReportedFirst(atomicNumbers: seq<nat>, fragmentCount: nat)
    requires HasDummyAtom(atomicNumbers)
    ensures CheckMol(atomicNumbers, fragmentCount) == Raised(DockingError(HydrogenAtomsLeft))
  {
    var i :| 0 <= i < |atomicNumbers| && atomicNumbers[i] == 0;
    assert atomicNumbers[i] in atomicNumbers;
  }

  /** Without dummy atoms, a molecule of several (or no) fragments is rejected with its count. */
  lemma FragmentCountReported(atomicNumbers: seq<nat>, fragmentCount: nat)
    requires !HasDummyAtom(atomicNumbers) && fragmentCount != 1
    ensures CheckMol(atomicNumbers, fragmentCount) == Raised(DockingError(IncorrectFragmentCount(fragmentCount)))
  {
  }

  /** Explicit hydrogen atoms (atomic number 1) do not make check_mol fail, whatever its message
      says: only atomic number 0 is rejected. */
  lemma HydrogenAtomsPass(atomicNumbers: seq<nat>)
    requires forall i :: 0 <= i < |atomicNumbers| ==> atomicNumbers[i] >= 1
    ensures CheckMol(atomicNumbers, 1) == Ok(())
  {
  }

  // ---------------------------------------------------------------------------
  // refine_mol_with_ff
  // ---------------------------------------------------------------------------

  /** How an optimisation run ends: status 0, a nonzero status, a KekulizeException, or any
      other exception RDKit raises while preparing or optimising the molecule (for instance an
      AtomValenceException, or an AtomKekulizeException, which is not a KekulizeException). */
  datatype RunOutcome = Converged | NonzeroStatus | Kekulize | OtherError

  /** The force field that produced the refined molecule. */
  datatype ForceField = MMFF94 | UFF

  /** `run_mmff94_opt`: the refined molecule, or the error the run raises. */
  function RunMmff94Opt(outcome: RunOutcome): (r: Result<ForceField>)
    ensures r.Ok? <==> outcome == Converged
    ensures r.Ok? ==> r.value == MMFF94
    ensures r == Raised(KekulizeException) <==> outcome == Kekulize
    ensures r == Raised(DockingError(MmffOptimizationFailed)) <==> outcome == NonzeroStatus
    ensures r == Raised(OtherRDKitError) <==> outcome == OtherError
  {
    match outcome
    case Converged => Ok(MMFF94)
    case NonzeroStatus => Raised(DockingError(MmffOptimizationFailed))
    case Kekulize => Raised(KekulizeException)
    case OtherError => Raised(OtherRDKitError)
  }

  /** `run_uff_opt`: the refined molecule, or the error the run raises. */
  function RunUffOpt(outcome: RunOutcome): (r: Result<ForceField>)
    ensures r.Ok? <==> outcome == Converged
    ensures r.Ok? ==> r.value == UFF
    ensures r == Raised(KekulizeException) <==> outcome == Kekulize
    ensures r == Raised(DockingError(UffOptimizationFailed)) <==> outcome == NonzeroStatus
    ensures r == Raised(OtherRDKitError) <==> outcome == OtherError
  {
    match outcome
    case Converged => Ok(UFF)
    case NonzeroStatus => Raised(DockingError(UffOptimizationFailed))
    case Kekulize => Raised(KekulizeException)
    case OtherError => Raised(OtherRDKitError)
  }

  /** refine_mol_with_ff runs UFF: after MMFF94 raised KekulizeException, or when only UFF
      parameters exist. */
  predicate UffRuns(hasMmffParams: bool, hasUffParams: bool, mmff: RunOutcome) {
    (hasMmffParams && mmff == Kekulize) || (!hasMmffParams && hasUffParams)
  }

  /** `refine_mol_with_ff`: MMFF94 when its parameters exist, falling back to UFF only on a
      KekulizeException; UFF when only its parameters exist; an error otherwise. `mmff` and `uff`
      are how the two runs would end. */
  function RefineMolWithFF(hasMmffParams: bool, hasUffParams: bool, mmff: RunOutcome, uff: RunOutcome): (r: Result<ForceField>)
    ensures r == Ok(MMFF94) <==> hasMmffParams && mmff == Converged
    ensures r == Ok(UFF) <==> UffRuns(hasMmffParams, hasUffParams, mmff) && uff == Converged
    ensures r == Raised(DockingError(MmffOptimizationFailed)) <==> hasMmffParams && mmff == NonzeroStatus
    ensures r == Raised(DockingError(UffOptimizationFailed)) <==>
      UffRuns(hasMmffParams, hasUffParams, mmff) && uff == NonzeroStatus
    ensures r == Raised(KekulizeException) <==> UffRuns(hasMmffParams, hasUffParams, mmff) && uff == Kekulize
    ensures r == Raised(OtherRDKitError) <==>
      (hasMmffParams && mmff == OtherError) || (UffRuns(hasMmffParams, hasUffParams, mmff) && uff == OtherError)
    ensures r == Raised(DockingError(ParametersNotAvailable)) <==> !hasMmffParams && !hasUffParams
  {
    if hasMmffParams then
      match RunMmff94Opt(mmff)
      case Raised(KekulizeException) => RunUffOpt(uff)
      case other => other
    else if hasUffParams then
      RunUffOpt(uff)
    else
      Raised(DockingError(ParametersNotAvailable))
  }

  /** Only KekulizeException is caught: any other RDKit exception from MMFF94 leaves
      refine_mol_with_ff unchanged, and UFF is not tried. */
  lemma OtherErrorHasNoFallback(hasUffParams: bool, uff1: RunOutcome, uff2: RunOutcome)
    ensures RefineMolWithFF(true, hasUffParams, OtherError, uff1) == Raised(OtherRDKitError)
    ensures RefineMolWithFF(true, hasUffParams, OtherError, uff1) == RefineMolWithFF(true, hasUffParams, OtherError, uff2)
  {
  }

  /** A nonzero MMFF94 status is an error, with no fallback to UFF. */
  lemma MmffFailureHasNoFallback(hasUffParams: bool, uff: RunOutcome)
    ensures RefineMolWithFF(true, hasUffParams, NonzeroStatus, uff) == Raised(DockingError(MmffOptimizationFailed))
  {
  }

  /** Without parameters for either force field the molecule cannot be refined, and only then
      is that error raised. */
  lemma NoParametersIff(hasMmffParams: bool, hasUffParams: bool, mmff: RunOutcome, uff: RunOutcome)
    ensures RefineMolWithFF(hasMmffParams, hasUffParams, mmff, uff) == Raised(DockingError(ParametersNotAvailable))
      <==> !hasMmffParams && !hasUffParams
  {
  }

  /** The UFF fallback after a KekulizeException runs UFF without asking whether UFF parameters
      exist. */
  lemma KekulizeFallbackIgnoresUffParams(hasUffParams: bool, uff: RunOutcome)
    ensures RefineMolWithFF(true, hasUffParams, Kekulize, uff) == RunUffOpt(uff)
  {
  }

  /** UFF is never run when MMFF94 parameters exist and MMFF94 does not raise
      KekulizeException: its outcome cannot change the result. */
  lemma UffNotRunUnlessNeeded(hasUffParams: bool, mmff: RunOutcome, uff1: RunOutcome, uff2: RunOutcome)
    requires mmff != Kekulize
    ensures RefineMolWithFF(true, hasUffParams, mmff, uff1) == RefineMolWithFF(true, hasUffParams, mmff, uff2)
  {
  }

  /** MMFF94 is never run without its parameters: its outcome cannot change the result. */
  lemma MmffNotRunWithoutParams(hasUffParams: bool, mmff1: RunOutcome, mmff2: RunOutcome, uff: RunOutcome)
    ensures RefineMolWithFF(false, hasUffParams, mmff1, uff) == RefineMolWithFF(false, hasUffParams, mmff2, uff)
  {
  }
}
