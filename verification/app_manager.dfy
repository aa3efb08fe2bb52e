/**
 * The application-setup reconciliation engine of the Python setup tool.
 *
 * The tool reads a catalogue of tools, runs each tool's check command to mark
 * it "Installed" or "Not Installed", installs the tools the user selects one
 * at a time with the install command for the current operating system, and
 * re-checks the whole catalogue afterwards.  Every event is written to an
 * append-only audit log.
 *
 * The shell is an oracle over an opaque world `W`: running a command yields
 * what `subprocess.run` would report and the world afterwards.  Every command
 * issued is recorded, as is every message box shown, so that "no command ran"
 * and "one notice was shown" can be stated.  Log lines are the messages
 * passed to `log_message`; the timestamp prefix is not modelled.
 */
module AppManager {
  import opened Wrappers
  import opened Text

  /** What one `subprocess.run(command, shell=True, ...)` call produces. */
  datatype Outcome =
    | Exited(returnCode: int, stdout: string, stderr: string)
    | Raised(message: string)   // the call itself raised; `message` is `str(e)`

  type Shell<!W> = (W, string) -> (Outcome, W)

  predicate Succeeds(o: Outcome)
  {
    o.Exited? && o.returnCode == 0
  }

  /** The triple `run_command` returns. */
  datatype CommandResult = CommandResult(success: bool, stdout: string, stderr: string)

  /** One catalogue entry (one element of the JSON file's "tools" array). */
  datatype Descriptor = Descriptor(
    name: string,
    description: string,
    checkCommand: string,
    installCommand: map<string, string>)

  datatype Status = Installed | NotInstalled
  {
    function Text(): string
    {
      if this == Installed then "Installed" else "Not Installed"
    }
  }

  /** One row of the table: (name, status, description). */
  datatype Row = Row(name: string, status: Status, description: string)

  datatype Notice =
    | InfoBox(title: string, text: string)
    | ErrorBox(title: string, text: string)
    | Question(title: string, text: string)

  /** Everything the tool does to the outside: the shell's world, the commands
   *  issued, the audit log and the message boxes shown, each in order. */
  datatype Env<W> = Env(world: W, commands: seq<string>, log: seq<string>, notices: seq<Notice>)

  /** The two bootstrap commands; their text is configuration, not logic. */
  datatype Bootstrap = Bootstrap(chocolatey: string, homebrew: string)

  /** The tool's state: the detected OS, the loaded catalogue, the table rows
   *  and whether `root.quit()` has been requested. */
  datatype Gui = Gui(osName: string, applications: seq<Descriptor>, table: seq<Row>, quitRequested: bool)

  function Log<W>(env: Env<W>, message: string): (r: Env<W>)
    ensures r.log == env.log + [message]
    ensures r.world == env.world && r.commands == env.commands && r.notices == env.notices
  {
    env.(log := env.log + [message])
  }

  function Show<W>(env: Env<W>, notice: Notice): (r: Env<W>)
    ensures r.notices == env.notices + [notice]
    ensures r.world == env.world && r.commands == env.commands && r.log == env.log
  {
    env.(notices := env.notices + [notice])
  }

  // ----- run_command and the helpers built on it -----

  /** `run_command`: never fails; success iff the process exited with code 0,
   *  and a raised exception becomes `(False, "", str(e))`. */
  function RunCommand<W>(shell: Shell<W>, env: Env<W>, command: string): (res: (CommandResult, Env<W>))
    ensures res.0.success <==> Succeeds(shell(env.world, command).0)
    ensures shell(env.world, command).0.Raised? ==>
              res.0.stdout == "" && res.0.stderr == shell(env.world, command).0.message
    ensures shell(env.world, command).0.Exited? ==>
              && res.0.stdout == PythonStrip(shell(env.world, command).0.stdout)
              && res.0.stderr == PythonStrip(shell(env.world, command).0.stderr)
    ensures res.1 == env.(world := shell(env.world, command).1, commands := env.commands + [command])
  {
    var (outcome, world) := shell(env.world, command);
    var env' := env.(world := world, commands := env.commands + [command]);
    match outcome
    case Exited(code, out, err) => (CommandResult(code == 0, PythonStrip(out), PythonStrip(err)), env')
    case Raised(msg) => (CommandResult(false, "", msg), env')
  }

  /** The version query `check_package_manager` runs for a package-manager key. */
  function VersionQuery(packageManager: string): (command: string)
    ensures command != "" <==> packageManager in {"windows", "macos", "linux"}
    ensures packageManager == "windows" ==> command == "choco -v"
    ensures packageManager == "macos" ==> command == "brew --version"
    ensures packageManager == "linux" ==> command == "apt --version"
  {
    if packageManager == "windows" then "choco -v"
    else if packageManager == "macos" then "brew --version"
    else if packageManager == "linux" then "apt --version"
    else ""
  }

  /** `check_package_manager`: runs the version query (the empty command for an
   *  unknown key) and reports whether it succeeded. */
  function CheckPackageManager<W>(shell: Shell<W>, env: Env<W>, packageManager: string): (res: (bool, Env<W>))
    ensures res.0 <==> Succeeds(shell(env.world, VersionQuery(packageManager)).0)
    ensures res.1.commands == env.commands + [VersionQuery(packageManager)]
    ensures res.1.log == env.log && res.1.notices == env.notices
  {
    var (result, env') := RunCommand(shell, env, VersionQuery(packageManager));
    (result.success, env')
  }

  const ChocolateyMissing := "Chocolatey is not installed. Installing Chocolatey..."
  const HomebrewMissing := "Homebrew is not installed. Installing Homebrew..."
  const NoAutomaticInstall := "Package manager not supported for automatic installation on Linux."
  const OnlyWindowsAndMac := "Package manager installation is only automated for Windows and macOS."

  /** `install_package_manager`: a bootstrap command runs only for "windows"
   *  and "macos"; any other name logs that it is unsupported and runs nothing. */
  function InstallPackageManager<W>(shell: Shell<W>, env: Env<W>, boot: Bootstrap, osName: string): (r: Env<W>)
    ensures osName == "windows" ==>
              r.commands == env.commands + [boot.chocolatey] && r.log == env.log + [ChocolateyMissing]
              && r.notices == env.notices
    ensures osName == "macos" ==>
              r.commands == env.commands + [boot.homebrew] && r.log == env.log + [HomebrewMissing]
              && r.notices == env.notices
    ensures osName !in {"windows", "macos"} ==>
              r == env.(log := env.log + [NoAutomaticInstall],
                        notices := env.notices + [ErrorBox("Error", OnlyWindowsAndMac)])
  {
    if osName == "windows" then RunCommand(shell, Log(env, ChocolateyMissing), boot.chocolatey).1
    else if osName == "macos" then RunCommand(shell, Log(env, HomebrewMissing), boot.homebrew).1
    else Show(Log(env, NoAutomaticInstall), ErrorBox("Error", OnlyWindowsAndMac))
  }

  /** `check_application_installed` */
  function CheckApplicationInstalled<W>(shell: Shell<W>, env: Env<W>, checkCommand: string): (res: (bool, Env<W>))
    ensures res.0 <==> Succeeds(shell(env.world, checkCommand).0)
    ensures res.1 == env.(world := shell(env.world, checkCommand).1, commands := env.commands + [checkCommand])
  {
    var (result, env') := RunCommand(shell, env, checkCommand);
    (result.success, env')
  }

  function InstallingLine(name: string): string { "Installing " + name + "..." }
  function SuccessLine(name: string): string { name + " installed successfully." }
  function FailureLine(name: string, stderr: string): string { "Error installing " + name + ": " + stderr }

  /** `install_application`: exactly one command, logged "Installing X..." and
   *  then exactly one outcome line, which is also the returned message. */
  function InstallApplication<W>(shell: Shell<W>, env: Env<W>, name: string, command: string): (res: (string, Env<W>))
    ensures res.1.commands == env.commands + [command]
    ensures res.1.log == env.log + [InstallingLine(name), res.0]
    ensures res.1.notices == env.notices
    ensures res.1.world == shell(env.world, command).1
    ensures Succeeds(shell(env.world, command).0) ==> res.0 == SuccessLine(name)
    ensures !Succeeds(shell(env.world, command).0) ==>
              res.0 == FailureLine(name, RunCommand(shell, env, command).0.stderr)
  {
    var env1 := Log(env, InstallingLine(name));
    var (result, env2) := RunCommand(shell, env1, command);
    var message := if result.success then SuccessLine(name) else FailureLine(name, result.stderr);
    (message, Log(env2, message))
  }

  // ----- the check pass -----

  /** The check commands of a catalogue, in catalogue order. */
  function CheckCommands(apps: seq<Descriptor>): (r: seq<string>)
    ensures |r| == |apps| && forall i | 0 <= i < |apps| :: r[i] == apps[i].checkCommand
  {
    if apps == [] then [] else [apps[0].checkCommand] + CheckCommands(apps[1..])
  }

  function CheckedLine(row: Row): string
  {
    "Checked application: " + row.name + " - Status: " + row.status.Text()
  }

  /** One "Checked application" line per row, in row order. */
  function CheckedLines(rows: seq<Row>): (r: seq<string>)
    ensures |r| == |rows| && forall i | 0 <= i < |rows| :: r[i] == CheckedLine(rows[i])
  {
    if rows == [] then [] else [CheckedLine(rows[0])] + CheckedLines(rows[1..])
  }

  /** The shell's world just before the `i`-th check command of the pass runs. */
  function WorldBeforeCheck<W>(shell: Shell<W>, world: W, apps: seq<Descriptor>, i: nat): W
    requires i <= |apps|
    decreases i
  {
    if i == 0 then world else WorldBeforeCheck(shell, shell(world, apps[0].checkCommand).1, apps[1..], i - 1)
  }

  lemma SeqAssoc(a: seq<string>, b: seq<string>, c: seq<string>)
    ensures a + b + c == a + (b + c)
  {
  }

  /** The loop of `load_applications`: one row and one log line per catalogue
   *  entry, in catalogue order (what each row holds is `CheckAllRows`). */
  function CheckAll<W>(shell: Shell<W>, env: Env<W>, apps: seq<Descriptor>): (res: (seq<Row>, Env<W>))
    ensures |res.0| == |apps|
    ensures res.1.commands == env.commands + CheckCommands(apps)
    ensures res.1.log == env.log + CheckedLines(res.0)
    ensures res.1.notices == env.notices
    decreases |apps|
  {
    if apps == [] then ([], env)
    else
      var checked := CheckApplicationInstalled(shell, env, apps[0].checkCommand);
      var row := Row(apps[0].name, if checked.0 then Installed else NotInstalled, apps[0].description);
      var rest := CheckAll(shell, Log(checked.1, CheckedLine(row)), apps[1..]);
      SeqAssoc(env.commands, [apps[0].checkCommand], CheckCommands(apps[1..]));
      SeqAssoc(env.log, [CheckedLine(row)], CheckedLines(rest.0));
      assert ([row] + rest.0)[1..] == rest.0;
      ([row] + rest.0, rest.1)
  }

  /** Row `i` carries entry `i`'s name and description, and is "Installed" iff
   *  entry `i`'s check command succeeded in the world the earlier checks left. */
  predicate Reports<W>(shell: Shell<W>, world: W, apps: seq<Descriptor>, rows: seq<Row>)
  {
    && |rows| == |apps|
    && forall i | 0 <= i < |apps| ::
         && rows[i].name == apps[i].name
         && rows[i].description == apps[i].description
         && (rows[i].status == Installed <==>
               Succeeds(shell(WorldBeforeCheck(shell, world, apps, i), apps[i].checkCommand).0))
  }

  /** The check pass reports every entry as `Reports` says, and leaves the
   *  world the last check left. */
  lemma {:induction false} CheckAllRows<W>(shell: Shell<W>, env: Env<W>, apps: seq<Descriptor>)
    ensures var (rows, env') := CheckAll(shell, env, apps);
            && env'.world == WorldBeforeCheck(shell, env.world, apps, |apps|)
            && Reports(shell, env.world, apps, rows)
    decreases |apps|
  {
    if apps != [] {
      var checked := CheckApplicationInstalled(shell, env, apps[0].checkCommand);
      var row := Row(apps[0].name, if checked.0 then Installed else NotInstalled, apps[0].description);
      var env1 := Log(checked.1, CheckedLine(row));
      var tail := apps[1..];
      assert env1.world == shell(env.world, apps[0].checkCommand).1 by {
      }
      CheckAllRows(shell, env1, tail);
      var rest := CheckAll(shell, env1, tail);
      assert CheckAll(shell, env, apps) == ([row] + rest.0, rest.1) by {
      }
      assert WorldBeforeCheck(shell, env.world, apps, |apps|) == WorldBeforeCheck(shell, env1.world, tail, |tail|) by {
      }
      assert row.status == Installed <==> Succeeds(shell(env.world, apps[0].checkCommand).0) by {
      }
      RowsStep(shell, env.world, apps, row, rest.0);
    }
  }

  /** The inductive step of `CheckAllRows`: a first row that reports the
   *  first check, followed by rows reporting the rest of the catalogue in
   *  the world that check left, reports the whole catalogue. */
  lemma RowsStep<W>(shell: Shell<W>, world: W, apps: seq<Descriptor>, row: Row, rows: seq<Row>)
    requires apps != []
    requires row.name == apps[0].name && row.description == apps[0].description
    requires row.status == Installed <==> Succeeds(shell(world, apps[0].checkCommand).0)
    requires Reports(shell, shell(world, apps[0].checkCommand).1, apps[1..], rows)
    ensures Reports(shell, world, apps, [row] + rows)
  {
    forall i | 0 < i < |apps|
      ensures ([row] + rows)[i] == rows[i - 1] && apps[i] == apps[1..][i - 1]
    {
    }
  }

  /** A shell whose commands never change the world (check commands are
   *  expected to be queries). */
  ghost predicate ReadOnly<W(!new)>(shell: Shell<W>)
  {
    forall w, c :: shell(w, c).1 == w
  }

  lemma {:induction false} ReadOnlyWorldStays<W(!new)>(shell: Shell<W>, world: W, apps: seq<Descriptor>, i: nat)
    requires ReadOnly(shell) && i <= |apps|
    ensures WorldBeforeCheck(shell, world, apps, i) == world
    decreases i
  {
    if i > 0 {
      ReadOnlyWorldStays(shell, shell(world, apps[0].checkCommand).1, apps[1..], i - 1);
    }
  }

  /** With a read-only shell every status depends only on the starting world,
   *  so checking the same catalogue twice gives the same table. */
  lemma CheckAllIsIdempotent<W(!new)>(shell: Shell<W>, env: Env<W>, apps: seq<Descriptor>)
    requires ReadOnly(shell)
    ensures var (rows, env') := CheckAll(shell, env, apps);
            && env'.world == env.world
            && CheckAll(shell, env', apps).0 == rows
            && forall i | 0 <= i < |apps| ::
                 rows[i].status == Installed <==> Succeeds(shell(env.world, apps[i].checkCommand).0)
  {
    var (rows, env') := CheckAll(shell, env, apps);
    var rows2 := CheckAll(shell, env', apps).0;
    CheckAllRows(shell, env, apps);
    CheckAllRows(shell, env', apps);
    forall i | 0 <= i <= |apps|
      ensures WorldBeforeCheck(shell, env.world, apps, i) == env.world
    {
      ReadOnlyWorldStays(shell, env.world, apps, i);
    }
    assert env'.world == env.world;
    forall i | 0 <= i < |apps|
      ensures rows2[i] == rows[i]
    {
      ReadOnlyWorldStays(shell, env'.world, apps, i);
      SameReport(rows2[i], rows[i]);
    }
  }

  /** Two rows that agree on name, description and whether they say
   *  "Installed" are the same row. */
  lemma SameReport(a: Row, b: Row)
    requires a.name == b.name && a.description == b.description
    requires a.status == Installed <==> b.status == Installed
    ensures a == b
  {
  }

  // ----- load_applications -----

  function NotFoundText(jsonPath: string): string { "JSON file not found at " + jsonPath }

  /** `load_applications`: `file` is the parsed catalogue, or `None` when the
   *  JSON file does not exist.  A missing file leaves the catalogue and the
   *  table alone and logs one error line without running anything. */
  function LoadApplications<W>(shell: Shell<W>, gui: Gui, env: Env<W>, file: Option<seq<Descriptor>>, jsonPath: string)
    : (res: (Gui, Env<W>))
    ensures file.None? ==>
              && res.0 == gui
              && res.1 == env.(log := env.log + ["Error: " + NotFoundText(jsonPath)],
                               notices := env.notices + [ErrorBox("Error", NotFoundText(jsonPath))])
    ensures file.Some? ==>
              && res.0.applications == file.value
              && res.0.osName == gui.osName && res.0.quitRequested == gui.quitRequested
              && |res.0.table| == |gui.table| + |file.value|
              && res.0.table[..|gui.table|] == gui.table
              && (forall i | 0 <= i < |file.value| :: res.0.table[|gui.table| + i].name == file.value[i].name)
              && res.1.commands == env.commands + CheckCommands(file.value)
              && |res.1.log| == |env.log| + |file.value|
              && res.1.notices == env.notices
  {
    match file
    case None =>
      (gui, Log(Show(env, ErrorBox("Error", NotFoundText(jsonPath))), "Error: " + NotFoundText(jsonPath)))
    case Some(apps) =>
      var checked := CheckAll(shell, env, apps);
      CheckAllRows(shell, env, apps);
      assert forall i | 0 <= i < |apps| :: (gui.table + checked.0)[|gui.table| + i] == checked.0[i];
      (gui.(applications := apps, table := gui.table + checked.0), checked.1)
  }

  // ----- start-up -----

  /** `platform.system().lower()`, the only operating-system detection the tool does. */
  function DetectOs(system: string): (osName: string)
    ensures |osName| == |system|
    ensures forall i | 0 <= i < |system| :: osName[i] == LowerChar(system[i]) && !('A' <= osName[i] <= 'Z')
  {
    Lower(system)
  }

  /** The package-manager gate at start-up.  `accept` is the user's answer to
   *  the yes/no question; the result says whether `root.quit()` was called. */
  function PackageManagerGate<W>(shell: Shell<W>, env: Env<W>, boot: Bootstrap, osName: string, accept: bool)
    : (res: (bool, Env<W>))
    ensures osName !in {"windows", "macos"} ==> res == (false, env)
    ensures osName in {"windows", "macos"} ==>
              |res.1.commands| > |env.commands| && res.1.commands[|env.commands|] == VersionQuery(osName)
    ensures res.0 ==> osName in {"windows", "macos"} && !accept
    ensures osName in {"windows", "macos"} ==>
              var (present, env1) := CheckPackageManager(shell, env, osName);
              var env2 := Show(env1, InstallQuestion(osName));
              && (present ==> res == (false, env1))
              && (!present && accept ==> res == (false, InstallPackageManager(shell, env2, boot, osName)))
              && (!present && !accept ==> res.0 && res.1 == Show(env2, ErrorBox("Error", ManagerName(osName) + " is required to proceed.")))
  {
    if osName == "windows" || osName == "macos" then
      var (present, env1) := CheckPackageManager(shell, env, osName);
      if present then (false, env1)
      else
        var env2 := Show(env1, InstallQuestion(osName));
        if accept then (false, InstallPackageManager(shell, env2, boot, osName))
        else (true, Show(env2, ErrorBox("Error", ManagerName(osName) + " is required to proceed.")))
    else (false, env)
  }

  /** The package manager the tool relies on for a supported system. */
  function ManagerName(osName: string): string
  {
    if osName == "windows" then "Chocolatey" else "Homebrew"
  }

  function InstallQuestion(osName: string): Notice
  {
    Question("Package Manager Missing", ManagerName(osName) + " is not installed. Install it now?")
  }

  /** The gate's effect in terms of what it runs and shows: on Windows and
   *  macOS the version query runs; a missing manager brings up the question;
   *  the bootstrap command runs exactly when the user then accepts, and the
   *  tool quits exactly when the user declines. */
  lemma PackageManagerGateOutcome<W>(shell: Shell<W>, env: Env<W>, boot: Bootstrap, osName: string, accept: bool)
    requires osName in {"windows", "macos"}
    ensures var res := PackageManagerGate(shell, env, boot, osName, accept);
            var missing := !Succeeds(shell(env.world, VersionQuery(osName)).0);
            var bootCommand := if osName == "windows" then boot.chocolatey else boot.homebrew;
            && (res.0 <==> missing && !accept)
            && res.1.commands == env.commands + [VersionQuery(osName)] + (if missing && accept then [bootCommand] else [])
            && res.1.notices == env.notices
                 + (if missing then [InstallQuestion(osName)] else [])
                 + (if missing && !accept then [ErrorBox("Error", ManagerName(osName) + " is required to proceed.")] else [])
  {
    var (present, env1) := CheckPackageManager(shell, env, osName);
    var env2 := Show(env1, InstallQuestion(osName));
    if !present && accept {
      var r := InstallPackageManager(shell, env2, boot, osName);
      assert r.commands == env2.commands + [if osName == "windows" then boot.chocolatey else boot.homebrew];
      assert r.notices == env2.notices;
    }
  }

  /** The constructor's logic: detect, gate, then load.  `root.quit()` only
   *  ends the main loop later, so the catalogue is loaded either way. */
  function Startup<W>(shell: Shell<W>, env: Env<W>, boot: Bootstrap, osName: string, accept: bool,
                      file: Option<seq<Descriptor>>, jsonPath: string): (res: (Gui, Env<W>))
    ensures res.0.osName == osName && res.0.quitRequested == PackageManagerGate(shell, env, boot, osName, accept).0
    ensures file.Some? ==> res.0.applications == file.value && |res.0.table| == |file.value|
    ensures file.None? ==> res.0.table == []
  {
    var (quit, env1) := PackageManagerGate(shell, env, boot, osName, accept);
    LoadApplications(shell, Gui(osName, [], [], quit), env1, file, jsonPath)
  }

  // ----- install_selected -----

  /** The first catalogue entry with the given name, as the inner `for ... break` finds it. */
  function FindByName(apps: seq<Descriptor>, name: string): (r: Option<nat>)
    ensures r.Some? ==> r.value < |apps| && apps[r.value].name == name
                        && forall j | 0 <= j < r.value :: apps[j].name != name
    ensures r.None? ==> forall j | 0 <= j < |apps| :: apps[j].name != name
  {
    if apps == [] then None
    else if apps[0].name == name then Some(0)
    else match FindByName(apps[1..], name)
      case None => None
      case Some(j) => Some(j + 1)
  }

  /** `app["installCommand"].get(os_name)` followed by Python truthiness:
   *  a missing key and the empty string both mean "no command". */
  function InstallCommandFor(app: Descriptor, osName: string): (r: Option<string>)
    ensures r.Some? <==> osName in app.installCommand && app.installCommand[osName] != ""
    ensures r.Some? ==> r.value == app.installCommand[osName]
  {
    if osName in app.installCommand && app.installCommand[osName] != "" then Some(app.installCommand[osName])
    else None
  }

  function NoCommandText(osName: string): string
  {
    "No install command available for " + Capitalize(osName)
  }

  /** The install command one selected name leads to, if any. */
  function PlannedCommand(apps: seq<Descriptor>, osName: string, name: string): Option<string>
  {
    match FindByName(apps, name)
    case None => None
    case Some(i) => InstallCommandFor(apps[i], osName)
  }

  /** The commands a whole selection leads to, in selection order. */
  function PlannedCommands(apps: seq<Descriptor>, osName: string, selection: seq<string>): seq<string>
  {
    if selection == [] then []
    else
      PlannedStep(apps, osName, selection[0]) + PlannedCommands(apps, osName, selection[1..])
  }

  /** How many log lines one selected name produces: none when it is not in the
   *  catalogue, one when there is no command, two when a command runs. */
  function PlannedLogLines(apps: seq<Descriptor>, osName: string, name: string): nat
  {
    match FindByName(apps, name)
    case None => 0
    case Some(i) => if InstallCommandFor(apps[i], osName).Some? then 2 else 1
  }

  function PlannedLogTotal(apps: seq<Descriptor>, osName: string, selection: seq<string>): nat
  {
    if selection == [] then 0
    else PlannedLogLines(apps, osName, selection[0]) + PlannedLogTotal(apps, osName, selection[1..])
  }

  /** The body of the outer loop for one selected name. */
  function InstallOne<W>(shell: Shell<W>, env: Env<W>, apps: seq<Descriptor>, osName: string, name: string): (r: Env<W>)
    ensures FindByName(apps, name).None? ==> r == env
    ensures FindByName(apps, name).Some? && PlannedCommand(apps, osName, name).None? ==>
              r == env.(log := env.log + ["Error: " + NoCommandText(osName)],
                        notices := env.notices + [ErrorBox("Error", NoCommandText(osName))])
    ensures PlannedCommand(apps, osName, name).Some? ==>
              var command := PlannedCommand(apps, osName, name).value;
              && r.commands == env.commands + [command]
              && |r.log| == |env.log| + 2
              && r.log[..|env.log|] == env.log
              && r.log[|env.log|] == InstallingLine(name)
              && r.log[|env.log| + 1] == InstallApplication(shell, env, name, command).0
              && (Succeeds(shell(env.world, command).0) ==> r.log[|env.log| + 1] == SuccessLine(name))
              && (!Succeeds(shell(env.world, command).0) ==>
                    r.log[|env.log| + 1] == FailureLine(name, RunCommand(shell, env, command).0.stderr))
              && r.world == shell(env.world, command).1
              && r.notices == env.notices + [InfoBox("Installation Status", r.log[|env.log| + 1])]
  {
    match FindByName(apps, name)
    case None => env
    case Some(i) =>
      match InstallCommandFor(apps[i], osName)
      case Some(command) =>
        var (message, env1) := InstallApplication(shell, env, name, command);
        assert env1.log[..|env.log|] == env.log;
        Show(env1, InfoBox("Installation Status", message))
      case None =>
        Log(Show(env, ErrorBox("Error", NoCommandText(osName))), "Error: " + NoCommandText(osName))
  }

  /** The outer loop of `install_selected`, in selection order; one item's
   *  failure does not stop the next. */
  function InstallAll<W>(shell: Shell<W>, env: Env<W>, apps: seq<Descriptor>, osName: string, selection: seq<string>)
    : (r: Env<W>)
    ensures r.commands == env.commands + PlannedCommands(apps, osName, selection)
    ensures |r.log| == |env.log| + PlannedLogTotal(apps, osName, selection)
    ensures r.log[..|env.log|] == env.log
    decreases |selection|
  {
    if selection == [] then env
    else
      var env1 := InstallOne(shell, env, apps, osName, selection[0]);
      var r := InstallAll(shell, env1, apps, osName, selection[1..]);
      InstallOneCounts(shell, env, apps, osName, selection[0]);
      assert r.commands == env.commands + PlannedCommands(apps, osName, selection) by {
        SeqAssoc(env.commands, PlannedStep(apps, osName, selection[0]), PlannedCommands(apps, osName, selection[1..]));
      }
      assert r.log[..|env.log|] == r.log[..|env1.log|][..|env.log|];
      r
  }

  /** The commands one selected name leads to. */
  function PlannedStep(apps: seq<Descriptor>, osName: string, name: string): (r: seq<string>)
    ensures |r| <= 1
  {
    match PlannedCommand(apps, osName, name) case None => [] case Some(c) => [c]
  }

  /** What one selected name adds, in the terms the whole batch is counted in. */
  lemma InstallOneCounts<W>(shell: Shell<W>, env: Env<W>, apps: seq<Descriptor>, osName: string, name: string)
    ensures var r := InstallOne(shell, env, apps, osName, name);
            && r.commands == env.commands + PlannedStep(apps, osName, name)
            && |r.log| == |env.log| + PlannedLogLines(apps, osName, name)
            && r.log[..|env.log|] == env.log
  {
  }

  const NoSelectionText := "Please select applications to install."

  /** `install_selected`: `selection` holds the names in the selected rows and
   *  `file` is what re-reading the JSON file yields. */
  function InstallSelected<W>(shell: Shell<W>, gui: Gui, env: Env<W>, selection: seq<string>,
                              file: Option<seq<Descriptor>>, jsonPath: string): (res: (Gui, Env<W>))
    ensures selection == [] ==> res == (gui, env.(notices := env.notices + [InfoBox("No Selection", NoSelectionText)]))
    ensures selection != [] ==>
              var installed := InstallAll(shell, env, gui.applications, gui.osName, selection);
              && (file.Some? ==>
                    && res.1.commands == installed.commands + CheckCommands(file.value)
                    && |res.0.table| == |file.value|
                    && forall i | 0 <= i < |file.value| :: res.0.table[i].name == file.value[i].name)
              && (file.None? ==> res.0.table == [] && res.1.commands == installed.commands)
  {
    if selection == [] then (gui, Show(env, InfoBox("No Selection", NoSelectionText)))
    else
      var env1 := InstallAll(shell, env, gui.applications, gui.osName, selection);
      var loaded := LoadApplications(shell, gui.(table := []), env1, file, jsonPath);
      assert file.Some? ==> forall i | 0 <= i < |file.value| :: loaded.0.table[i] == loaded.0.table[0 + i];
      loaded
  }

  /** Installing a selection in two parts is installing it in one go: the
   *  batch is a left fold of the per-item step. */
  lemma {:induction false} InstallAllSplits<W>(shell: Shell<W>, env: Env<W>, apps: seq<Descriptor>, osName: string,
                                               first: seq<string>, second: seq<string>)
    ensures InstallAll(shell, env, apps, osName, first + second)
         == InstallAll(shell, InstallAll(shell, env, apps, osName, first), apps, osName, second)
    decreases |first|
  {
    if first == [] {
      assert first + second == second;
    } else {
      assert (first + second)[1..] == first[1..] + second;
      InstallAllSplits(shell, InstallOne(shell, env, apps, osName, first[0]), apps, osName, first[1..], second);
    }
  }

  // ----- operating-system detection -----

  /** On a Mac `platform.system()` is "Darwin", which lower-cases to "darwin":
   *  the start-up gate then does nothing (Homebrew is never checked) and install
   *  commands are looked up under "darwin" instead of "macos". */
  lemma MacHostIsNotDetected<W>(shell: Shell<W>, env: Env<W>, boot: Bootstrap, accept: bool, app: Descriptor)
    ensures DetectOs("Darwin") == "darwin"
    ensures VersionQuery(DetectOs("Darwin")) == ""
    ensures PackageManagerGate(shell, env, boot, DetectOs("Darwin"), accept) == (false, env)
    ensures "darwin" !in app.installCommand ==> InstallCommandFor(app, DetectOs("Darwin")).None?
  {
    assert Lower("Darwin") == "darwin";
  }

  /** Detection as the "macos" branches expect it: "Darwin" means "macos". */
  function DetectOsIntended(system: string): (osName: string)
    ensures Lower(system) == "darwin" ==> osName == "macos"
    ensures Lower(system) != "darwin" ==> osName == DetectOs(system)
  {
    if Lower(system) == "darwin" then "macos" else Lower(system)
  }

  /** With the intended detection, each of the three names `platform.system()`
   *  reports selects a package manager, and a Mac checks for Homebrew first. */
  lemma IntendedDetectionReachesEveryManager<W>(shell: Shell<W>, env: Env<W>, boot: Bootstrap, accept: bool)
    ensures VersionQuery(DetectOsIntended("Windows")) == "choco -v"
    ensures VersionQuery(DetectOsIntended("Darwin")) == "brew --version"
    ensures VersionQuery(DetectOsIntended("Linux")) == "apt --version"
    ensures var env' := PackageManagerGate(shell, env, boot, DetectOsIntended("Darwin"), accept).1;
            |env'.commands| > |env.commands| && env'.commands[|env.commands|] == "brew --version"
  {
    assert Lower("Darwin") == "darwin";
    assert Lower("Windows") == "windows";
    assert Lower("Linux") == "linux";
  }
}
