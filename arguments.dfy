/** Process-wide configuration of the batch tool: the global variables that
    `argumentHandler` fills in from the command line, the exit code it
    returns, and the choice `main` then makes between the colour and the
    monochrome pipelines. Command-line words arrive already parsed: `atoi`
    is not modelled, so argument 1 and argument 4 are given as integers. */
module Arguments {

  /** Defaults and tuning constants of the tool (file-scope globals). */
  const DefaultBatchSize: int := 4
  const SearchRadius: int := 60
  const Thresh: int := 80
  const Margin: int := 300
  const CenterThreshold: int := 300   // declared by the tool, never read by any decision
  const AreaRatioThreshold: real := 1.25

  /** The words after the program name: argument 1 (colour selector, parsed),
      argument 2 (image directory), argument 3 (save directory) and
      argument 4 (batch size, parsed; only read when exactly four words follow
      the program name). */
  datatype Argv = Argv(colorArg: int, retrieveDir: string, saveDir: string, batchArg: int)

  /** The exit code `argumentHandler` returns, as a decision table. */
  function HandlerCode(argCount: int, batchArg: int): (code: int)
    ensures code == 0 <==> argCount > 4 && (argCount != 5 || batchArg >= 1)
    ensures code == -1 <==> argCount == 5 && batchArg < 1
    ensures code == 1 <==> 1 < argCount <= 4
    ensures code == 2 <==> argCount <= 1
  {
    if argCount > 4 then
      if argCount == 5 then (if batchArg < 1 then -1 else 0) else 0
    else if argCount > 1 then 1
    else 2
  }

  /** Which pipelines `main` runs for a colour selector: colour when it is
      non-negative, mono when it is non-positive. */
  function Pipelines(colorVar: int): (runs: (bool, bool))
    ensures runs.0 || runs.1
    ensures runs.0 && runs.1 <==> colorVar == 0
    ensures !runs.1 <==> colorVar >= 1
    ensures !runs.0 <==> colorVar <= -1
  {
    (colorVar >= 0, colorVar <= 0)
  }

  function ColorPattern(dir: string): string { dir + "/images/*.tiff" }
  function ColorSaveDir(dir: string): string { dir + "/images/" }
  function MonoPattern(dir: string): string { dir + "/images_mono/*.tiff" }
  function MonoSaveDir(dir: string): string { dir + "/images_mono/" }

  /** The global variables of the tool, with their static initial values. */
  class Globals {
    var retrieveDirName: string
    var saveDirName: string
    var retrieveColorFiles: string
    var retrieveMonoFiles: string
    var saveColorFiles: string
    var saveMonoFiles: string
    var colorVar: int
    var colorStates: array<int>   // index 1: colour requested, index 0: mono requested
    var batchSize: int

    ghost predicate Valid()
      reads this
    {
      colorStates.Length == 2
    }

    /** Static initialisation of the globals before `main` runs. */
    constructor ()
      ensures Valid() && fresh(colorStates)
      ensures retrieveDirName == saveDirName == ""
      ensures retrieveColorFiles == retrieveMonoFiles == saveColorFiles == saveMonoFiles == ""
      ensures colorVar == 0 && colorStates[..] == [0, 0] && batchSize == DefaultBatchSize
    {
      retrieveDirName, saveDirName := "", "";
      retrieveColorFiles, retrieveMonoFiles := "", "";
      saveColorFiles, saveMonoFiles := "", "";
      colorVar := 0;
      batchSize := DefaultBatchSize;
      colorStates := new int[2](_ => 0);
    }

    /** `argumentHandler`: with more than four words it stores the selector
        and both directory names, builds the colour paths when the selector
        is at least 1 and the mono paths when it is at most -1, and with
        exactly five words overwrites the batch size (even with a bad value,
        which it then reports as -1). Fewer words touch nothing. */
    method ArgumentHandler(argCount: int, args: Argv) returns (code: int)
      requires Valid()
      modifies this, colorStates
      ensures Valid() && colorStates == old(colorStates)
      ensures code == HandlerCode(argCount, args.batchArg)
      ensures colorVar == if argCount > 4 then args.colorArg else old(colorVar)
      ensures retrieveDirName == if argCount > 4 then args.retrieveDir else old(retrieveDirName)
      ensures saveDirName == if argCount > 4 then args.saveDir else old(saveDirName)
      ensures retrieveColorFiles == if argCount > 4 && args.colorArg >= 1 then ColorPattern(args.retrieveDir) else old(retrieveColorFiles)
      ensures saveColorFiles == if argCount > 4 && args.colorArg >= 1 then ColorSaveDir(args.retrieveDir) else old(saveColorFiles)
      ensures retrieveMonoFiles == if argCount > 4 && args.colorArg <= -1 then MonoPattern(args.retrieveDir) else old(retrieveMonoFiles)
      ensures saveMonoFiles == if argCount > 4 && args.colorArg <= -1 then MonoSaveDir(args.retrieveDir) else old(saveMonoFiles)
      ensures colorStates[1] == if argCount > 4 && args.colorArg >= 1 then 1 else old(colorStates[1])
      ensures colorStates[0] == if argCount > 4 && args.colorArg <= -1 then 1 else old(colorStates[0])
      ensures batchSize == if argCount == 5 then args.batchArg else old(batchSize)
    {
      if argCount > 4 {
        colorVar := args.colorArg;
        retrieveDirName := args.retrieveDir;
        saveDirName := args.saveDir;
        if colorVar >= 1 {
          colorStates[1] := 1;
          retrieveColorFiles := retrieveDirName + "/images/*.tiff";
          saveColorFiles := retrieveDirName + "/images/";
        }
        if colorVar <= -1 {
          colorStates[0] := 1;
          retrieveMonoFiles := retrieveDirName + "/images_mono/*.tiff";
          saveMonoFiles := retrieveDirName + "/images_mono/";
        }
        if argCount == 5 {
          batchSize := args.batchArg;
          if batchSize < 1 {
            code := -1;
          } else {
            code := 0;
          }
        } else {
          code := 0;
        }
      } else if argCount > 1 {
        code := 1;
      } else {
        code := 2;
      }
    }
  }

  /** `main`: run the handler on freshly initialised globals, exit with 1 on
      any nonzero code, otherwise start the colour pipeline for a selector
      >= 0 and the mono pipeline for a selector <= 0. */
  method Launch(argCount: int, args: Argv) returns (exit: int, runColor: bool, runMono: bool, g: Globals)
    ensures g.Valid()
    ensures exit == if HandlerCode(argCount, args.batchArg) == 0 then 0 else 1
    ensures (runColor, runMono) == if exit == 0 then Pipelines(args.colorArg) else (false, false)
    ensures exit == 0 ==> g.batchSize >= 1 && g.colorVar == args.colorArg
    ensures runColor && !runMono ==> g.retrieveColorFiles == ColorPattern(args.retrieveDir) && g.saveColorFiles == ColorSaveDir(args.retrieveDir)
    ensures runMono && !runColor ==> g.retrieveMonoFiles == MonoPattern(args.retrieveDir) && g.saveMonoFiles == MonoSaveDir(args.retrieveDir)
    ensures runColor && runMono ==> g.retrieveColorFiles == "" && g.retrieveMonoFiles == ""
  {
    g := new Globals();
    var code := g.ArgumentHandler(argCount, args);
    runColor, runMono := false, false;
    if code != 0 {
      exit := 1;
      return;
    }
    exit := 0;
    if g.colorVar >= 0 {
      runColor := true;
    }
    if g.colorVar <= 0 {
      runMono := true;
    }
  }
}
