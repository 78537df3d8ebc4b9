/** The checks the script makes before any work (vtrim.py:15-28), over the
    facts about the file system they consult. */
module Startup {

  /** What `vtemp` is when the script starts. */
  datatype TempState = Absent | EmptyDir | NonEmptyDir | NotADir

  datatype Facts = Facts(
    inputIsFile: bool,   // `inputFile.is_file()`
    outputIsFile: bool,  // `outputFile.is_file()`
    listIsFile: bool,    // `segmentlist.txt` `.is_file()`
    temp: TempState,
    ignoreTemp: bool)    // `--ignore-temp`

  /** Why the script stops: a failed `assert`, or `mkdir` refusing a
      `vtemp` that exists but is not a directory. */
  datatype StartupError = InputNotFile | OutputExists | SegmentListExists | TempNotEmpty | TempNotCreatable

  /** Go on (creating `vtemp` first when `createTemp`), or stop with an error. */
  datatype Outcome = Proceed(createTemp: bool) | Abort(err: StartupError)

  function Start(f: Facts): (r: Outcome)
    // The run goes on exactly when every guard passes.
    ensures r.Proceed? <==>
      && f.inputIsFile && !f.outputIsFile && !f.listIsFile
      && (f.temp == Absent || f.temp == EmptyDir || (f.temp == NonEmptyDir && f.ignoreTemp))
    // `vtemp` is created exactly when it was absent.
    ensures r.Proceed? ==> (r.createTemp <==> f.temp == Absent)
    // The guards are checked in order: the error is the first one that fails.
    ensures r == Abort(InputNotFile) <==> !f.inputIsFile
    ensures r == Abort(OutputExists) <==> f.inputIsFile && f.outputIsFile
    ensures r == Abort(SegmentListExists) <==> f.inputIsFile && !f.outputIsFile && f.listIsFile
    ensures r == Abort(TempNotEmpty) <==>
      f.inputIsFile && !f.outputIsFile && !f.listIsFile && f.temp == NonEmptyDir && !f.ignoreTemp
    ensures r == Abort(TempNotCreatable) <==>
      f.inputIsFile && !f.outputIsFile && !f.listIsFile && f.temp == NotADir
  {
    if !f.inputIsFile then Abort(InputNotFile)
    else if f.outputIsFile then Abort(OutputExists)
    else if f.listIsFile then Abort(SegmentListExists)
    else
      match f.temp
      case NonEmptyDir => if f.ignoreTemp then Proceed(false) else Abort(TempNotEmpty)
      case EmptyDir => Proceed(false)
      case Absent => Proceed(true)
      case NotADir => Abort(TempNotCreatable)
  }

  /** `--ignore-temp` never stops a run that would otherwise go on, and it
      only ever rescues a non-empty `vtemp`. */
  lemma IgnoreTempOnlyRelaxes(f: Facts)
    ensures Start(f).Proceed? ==> Start(f.(ignoreTemp := true)).Proceed?
    ensures Start(f.(ignoreTemp := true)).Proceed? && !Start(f).Proceed? ==> f.temp == NonEmptyDir
  {
  }
}
