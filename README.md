# dockstring utilities: text parsers and molecule checks

A Dafny model of the self-contained logic in `dockstring/utils.py`, the helper module of the
dockstring docking package:

- the real-number lexeme `[-+]?[0-9]*\.?[0-9]+(e[-+]?[0-9]+)?` (`real_number_pattern`) that
  both parsers share, written as a greedy recogniser (`RealNumber.RealEnd`) and proved to
  return exactly the longest prefix in the grammar;
- `parse_scores_from_output`: `score_re.finditer` over the whole AutoDock Vina output,
  reporting the number after every `REMARK VINA RESULT:` marker (module `VinaScores`);
- `parse_search_box_conf`: `readlines()`, `conf_re.match` on each line and the dictionary
  filled line by line, last write winning, with the final six-key assertion (module
  `SearchBoxConf`; the dictionary loop is a method with a `map` variable);
- the decision rules of `check_mol`, `run_mmff94_opt`, `run_uff_opt` and
  `refine_mol_with_ff`, over what RDKit reports about the molecule (module `MolChecks`);
- the exceptions these raise (module `Errors`): `DockingError` with its reason,
  RDKit's `KekulizeException`, any other RDKit exception (which the code never catches), and
  `AssertionError`.

Both parsers take the file's content as a string. Scores and box values are kept as the
lexemes the regular expressions capture; `float()` is not modelled.

Python's `re` engine backtracks, so a regular expression finds the first match in its order of
choices, not necessarily the longest. For these patterns the two coincide, with one exception.
After `\w+`, after the `\s*` around `=` and after the `\s*` before a number, a shorter match is
always followed by a character that the next part of the pattern cannot start with. The model
therefore computes maximal runs there. The exception is the final `\s*\n$` of `conf_re`
(dockstring/utils.py:294): the greedy `\s*` also swallows the line's `\n` and has to give it back.
The model therefore accepts when the whitespace run after the number reaches the end of the
line and the line's last character is `\n`.

Points where the code does something its own wording or a quick reading might not suggest:

- `check_mol` speaks of hydrogen atoms in its comment (dockstring/utils.py:108) and its
  message (:111), but the test at :109 rejects atoms whose atomic number is 0, i.e. dummy
  atoms. Explicit hydrogens (atomic number 1) pass (`MolChecks.HydrogenAtomsPass`).
- `parse_scores_from_output` runs `score_re.finditer` over the whole content
  (dockstring/utils.py:288-291). A marker counts wherever it occurs, and the whitespace after it
  may cross newlines.
- The six-key check of `parse_search_box_conf` is an `assert` (dockstring/utils.py:305), so it
  raises `AssertionError`, not `DockingError`. It counts keys and never looks at their names.

## Model

| member | source | states |
|---|---|---|
| Lexical.SpaceEnd | dockstring/utils.py:285 | `\s*` stops only at the end of the text or at a character that is not whitespace |
| Lexical.SpaceRun | dockstring/utils.py:285 | every character `\s*` consumes is whitespace |
| Lexical.WordEnd | dockstring/utils.py:294 | `\w+` stops only at the end of the text or at a character that is not a word character |
| Lexical.WordRun | dockstring/utils.py:294 | every character `\w+` consumes is a word character |
| Lexical.DigitsEnd | dockstring/utils.py:284 | `[0-9]*` stops only at the end of the text or at a non-digit |
| Lexical.DigitsRun | dockstring/utils.py:284 | every character `[0-9]*` consumes is a digit |
| RealNumber.RealEnd | dockstring/utils.py:284 | the end of the number lexeme starting at i, never before i nor past the end; that it is exactly the longest grammar word is stated by RealEndSound, RealEndComplete and RealEndLongest |
| RealNumber.RealEndSound | dockstring/utils.py:284 | whatever the recogniser consumes is a word of the grammar `[-+]?[0-9]*\.?[0-9]+(e[-+]?[0-9]+)?` |
| RealNumber.RealEndComplete | dockstring/utils.py:284 | every grammar word starting at i is covered: the recogniser reads at least that far |
| RealNumber.RealEndLongest | dockstring/utils.py:284 | no longer prefix from i is a grammar word, so the match is the longest one |
| RealNumber.RealEndExact | dockstring/utils.py:284 | a grammar word followed by a character that cannot occur in a number is read exactly |
| RealNumber.RealEndChars | dockstring/utils.py:284 | a match holds only digits, signs, `.` and lower-case `e` |
| RealNumber.RealChars | dockstring/utils.py:284 | a grammar word is non-empty and holds only those characters |
| RealNumber.TrailingPointNotConsumed | dockstring/utils.py:284 | `7.` yields `7`: a point is consumed only when a digit follows it |
| RealNumber.BareExponentNotConsumed | dockstring/utils.py:284 | `1e` (or `1e+` without digits) yields `1` |
| RealNumber.UpperExponentNotConsumed | dockstring/utils.py:284 | an upper-case `E` is never consumed: `1E5` yields `1` |
| VinaScores.MatchAt | dockstring/utils.py:285 | a match of score_re at p starts with the marker and ends after it, within the content |
| VinaScores.MatchAtSound | dockstring/utils.py:285 | a match is the marker, then only whitespace, then the captured score, which is a grammar word and the longest one starting there |
| VinaScores.MatchAtComplete | dockstring/utils.py:285 | whenever the marker is followed by whitespace and a number, score_re matches there and captures that number or a longer one at the same place |
| VinaScores.NoMatchInsideMatch | dockstring/utils.py:285 | no match starts inside another match, because the marker cannot overlap itself and a score holds no `R` |
| VinaScores.AttemptsDisjoint | dockstring/utils.py:285-291 | the matches of score_re at the positions of the content never overlap |
| VinaScores.Scan | dockstring/utils.py:291 | finditer from p: at most one capture per remaining position; ScanSkips and ScanMissesNothing state which captures it yields |
| VinaScores.FindScores | dockstring/utils.py:291 | `score_re.finditer(content)` from p yields at most one score per remaining position; FindScoresMissesNothing states that it yields exactly the score of every matching position |
| VinaScores.ScanSkips | dockstring/utils.py:291 | finditer passes over positions where score_re does not match without reporting anything |
| VinaScores.ScanMissesNothing | dockstring/utils.py:291 | when matches do not overlap, searching on after each match yields the capture of every position that matches, in order |
| VinaScores.FindScoresMissesNothing | dockstring/utils.py:291 | finditer over the content gives the same list as trying score_re at every position |
| VinaScores.ParseScoresFromOutput | dockstring/utils.py:288-291 | no more scores than characters of the content; ParseScoresInPositionOrder and ScoresAreNumbers state which scores and that each is a number |
| VinaScores.ParseScoresInPositionOrder | dockstring/utils.py:288-291 | parse_scores_from_output returns one score per position where score_re matches, in order of position |
| VinaScores.CollectedAreCaptures | dockstring/utils.py:291 | every listed score is the capture of a match at some position, which the lemma names |
| VinaScores.ScoresAreNumbers | dockstring/utils.py:284-291 | every returned score is a word of the number grammar |
| VinaScores.NoMarkerNoScores | dockstring/utils.py:288-291 | content without the marker yields an empty list, not an error |
| VinaScores.SkipNoMarkerLetter | dockstring/utils.py:291 | text without an `R` contributes no score |
| VinaScores.PoseAt | dockstring/utils.py:285-291 | marker, whitespace, then a number nothing can extend: that number is reported and the search resumes right after it |
| VinaScores.ResultLineAt | dockstring/utils.py:285-291 | a whole result line reports its first number only; the other numbers on the line are skipped |
| VinaScores.TwoPosesExample | dockstring/utils.py:288-291 | two result lines, the marker followed by `-7.2  0.000  0.000` and by `-6.8  1.200  1.500`, give `["-7.2", "-6.8"]` |
| SearchBoxConf.FirstLineLength | dockstring/utils.py:300 | the first line runs up to and including the first newline, or to the end of the content |
| SearchBoxConf.ReadLines | dockstring/utils.py:300 | readlines(): the lines concatenate back to the content, none is empty, only the last may lack its newline |
| SearchBoxConf.ReadLinesConcat | dockstring/utils.py:300 | splitting the concatenation of such lines gives back the same lines |
| SearchBoxConf.MatchConfLine | dockstring/utils.py:294 | `conf_re.match` on one line: an accepted line ends with a newline, its key is a non-empty prefix and its value is non-empty; MatchConfLineSound, MatchConfLineComplete and MatchConfLineIff state exactly which lines are accepted |
| SearchBoxConf.MatchConfLineSound | dockstring/utils.py:294 | an accepted line is key, whitespace, `=`, whitespace, number, whitespace and a final newline, and the captures are that key and number |
| SearchBoxConf.MatchConfLineComplete | dockstring/utils.py:294 | every line of that shape is accepted with exactly its key and number |
| SearchBoxConf.MatchConfLineIff | dockstring/utils.py:294 | conf_re.match accepts a line with given captures if and only if the line has that shape |
| SearchBoxConf.LeadingWhitespaceRejected | dockstring/utils.py:294 | a line with leading whitespace is skipped |
| SearchBoxConf.MissingNewlineRejected | dockstring/utils.py:294 | a last line without its newline is skipped |
| SearchBoxConf.CenterLineExample | dockstring/utils.py:294 | `center_x = -12.5` with its newline is accepted with key `center_x` and value `-12.5` |
| SearchBoxConf.UppercaseExponentExample | dockstring/utils.py:294 | `size_x = 1E5` is skipped, since `E` does not continue the number |
| SearchBoxConf.ParseSearchBoxConf | dockstring/utils.py:297-306 | returns the dictionary iff the accepted lines have exactly six distinct keys; its keys are then those keys and each holds the value of the last accepted line with that key; otherwise raises AssertionError |
| SearchBoxConf.RecordStep | dockstring/utils.py:301-303 | writing one line's outcome into the dictionary keeps its keys equal to the accepted keys so far and keeps last-write-wins |
| MolChecks.CheckMol | dockstring/utils.py:106-116 | passes iff no atom has atomic number 0 and there is exactly one fragment; every failure is a DockingError |
| MolChecks.DummyAtomReportedFirst | dockstring/utils.py:109-111 | a dummy atom is reported whatever the fragment count |
| MolChecks.FragmentCountReported | dockstring/utils.py:113-116 | without dummy atoms, a fragment count other than one is reported with that count |
| MolChecks.HydrogenAtomsPass | dockstring/utils.py:108-111 | atoms of atomic number 1 or more and one fragment pass, despite the message about hydrogens |
| MolChecks.RunMmff94Opt | dockstring/utils.py:130-137 | succeeds with MMFF94 iff the run converges; raises KekulizeException or another RDKit exception iff `MMFFSanitizeMolecule` or the optimiser raises it; raises the MMFF DockingError iff the status is nonzero |
| MolChecks.RunUffOpt | dockstring/utils.py:140-146 | succeeds with UFF iff the run converges; a KekulizeException or another RDKit exception propagates; raises the UFF DockingError iff the status is nonzero |
| MolChecks.RefineMolWithFF | dockstring/utils.py:149-162 | the result comes from MMFF94 iff its parameters exist and it converges; from UFF iff UFF converges and either MMFF94 raised KekulizeException or only UFF parameters exist; the MMFF DockingError iff MMFF94 runs and ends with a nonzero status; the UFF DockingError, KekulizeException and another RDKit exception each iff the run that ends the call (MMFF94, or UFF in one of those two cases) raises it |
| MolChecks.OtherErrorHasNoFallback | dockstring/utils.py:149-155 | an RDKit exception other than KekulizeException from MMFF94 propagates unchanged and UFF is not tried, whatever its outcome would be |
| MolChecks.MmffFailureHasNoFallback | dockstring/utils.py:149-155 | a nonzero MMFF94 status raises DockingError with no fallback to UFF |
| MolChecks.NoParametersIff | dockstring/utils.py:159-160 | the no-parameters error is raised iff neither force field has parameters |
| MolChecks.KekulizeFallbackIgnoresUffParams | dockstring/utils.py:153-155 | after a KekulizeException, UFF runs without checking for UFF parameters |
| MolChecks.UffNotRunUnlessNeeded | dockstring/utils.py:150-155 | with MMFF94 parameters and no KekulizeException, the UFF outcome cannot change the result |
| MolChecks.MmffNotRunWithoutParams | dockstring/utils.py:156-160 | without MMFF94 parameters, the MMFF94 outcome cannot change the result |

## Left out

- Reading files: `open`, `f.read()`, `f.readlines()` on a file object, text decoding and universal-newline translation are not modelled. Each parser takes the content after that translation as a string, so `\r\n` and `\r` line ends have already become `\n`.
- `float()` on the captured lexemes: the IEEE-754 rounding is not modelled. Scores and box values stay strings; their grammar is proved instead.
- `\w` is restricted to ASCII letters, digits and `_`; Python's `\w` on `str` patterns also accepts other Unicode letters and digits. `\s` is modelled as Python's full Unicode whitespace set.
- Message texts of `DockingError` are replaced by a reason per message; the fragment count in the message is kept.
- `check_mol` takes the atoms' atomic numbers and the number of fragments as inputs; RDKit's `GetAtoms` and `GetMolFrags` are not modelled.
- `run_mmff94_opt`, `run_uff_opt` and `refine_mol_with_ff` take the parameter checks and the way each run ends (convergence, a nonzero status, a `KekulizeException`, or any other RDKit exception, all of which share one constructor) as inputs; the molecule copy, RDKit's sanitization and the optimisers, `max_iters` and the optimised coordinates are not modelled. The result names the force field that produced the molecule.
- `check_vina_output` is not part of this model: its only test is the file size reported by `os.stat`.
- RDKit wrappers (`canonicalize_smiles`, `smiles_to_mol`, `sanitize_mol`, `embed_mol`, `assign_bond_orders`, `assign_stereochemistry`, `verify_docked_ligand`, `read_mol_from_pdb`, `write_mol_to_mol_file`) are foreign library behaviour and are not modelled.
- The `obabel` subprocess adapters (`convert_pdbqt_to_pdb`, `protonate_smiles`, `protonate_mol`, `convert_mol_file_to_pdbqt`) and resource discovery through `pkg_resources` and `platform` are I/O and are not modelled.
- Logging (`setup_logger`, the RDKit log switches, the message before the UFF fallback) has no effect on results and is not modelled.
- ParseSearchBoxConf: the `AssertionError` for a count other than six assumes assertions are enabled; under `python -O` the `assert` at dockstring/utils.py:305 is skipped and any dictionary is returned, which the model does not capture.
