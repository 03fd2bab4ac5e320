/**
 * Building the command line that opens an image in an external viewer
 * (the argument handling of `open_with_xdg_open`). Spawning the process
 * and silencing its standard streams are not modelled.
 */
module OpenCommand {
  import opened Wrappers
  import opened Config

  /** A program and its arguments, as handed to the process spawner. */
  datatype Invocation = Invocation(program: string, args: seq<string>)

  /** The whole argument vector: the program followed by its arguments. */
  function Argv(inv: Invocation): (argv: seq<string>)
    ensures |argv| == |inv.args| + 1 && argv[0] == inv.program && argv[1..] == inv.args
  {
    [inv.program] + inv.args
  }

  /** `Iterator::position` for equality: the first index holding `x`. */
  function FirstIndexOf(xs: seq<string>, x: string): (r: Option<nat>)
    ensures r.None? <==> x !in xs
    ensures r.Some? ==> r.value < |xs| && xs[r.value] == x && x !in xs[..r.value]
  {
    if xs == [] then None
    else if xs[0] == x then Some(0)
    else
      match FirstIndexOf(xs[1..], x)
      case None => None
      case Some(k) =>
        assert xs[1..][..k] == xs[1..k + 1];
        Some(k + 1)
  }

  /**
   * The command as the code builds it: the first `<path>` element of the
   * configured command is replaced by the image path, element 0 is the
   * program and the rest are its arguments. A command without a `<path>`
   * element, the empty one included, is replaced by the default command,
   * which is used as it stands.
   */
  function Launch(openCommand: seq<string>, imagePath: string): (r: Invocation)
    ensures Placeholder in openCommand ==> |Argv(r)| == |openCommand| && imagePath in Argv(r)
    ensures Placeholder !in openCommand ==> Argv(r) == Default().openCommand
  {
    match FirstIndexOf(openCommand, Placeholder)
    case Some(k) =>
      var argv := openCommand[k := imagePath];
      assert [argv[0]] + argv[1..] == argv && argv[k] == imagePath;
      Invocation(argv[0], argv[1..])
    case None =>
      var argv := Default().openCommand;
      Invocation(argv[0], argv[1..])
  }

  /**
   * With a `<path>` element: the argument vector is the configured command
   * with only the first placeholder replaced, everything else in order and
   * unchanged.
   */
  lemma LaunchSubstitutesFirstPlaceholder(openCommand: seq<string>, imagePath: string, k: nat)
    requires k < |openCommand| && openCommand[k] == Placeholder && Placeholder !in openCommand[..k]
    ensures |Argv(Launch(openCommand, imagePath))| == |openCommand|
    ensures Argv(Launch(openCommand, imagePath))[k] == imagePath
    ensures forall i :: 0 <= i < |openCommand| && i != k ==>
      Argv(Launch(openCommand, imagePath))[i] == openCommand[i]
  {
    assert FirstIndexOf(openCommand, Placeholder) == Some(k);
    var argv := openCommand[k := imagePath];
    assert Argv(Launch(openCommand, imagePath)) == [argv[0]] + argv[1..] == argv;
  }

  /** Without a `<path>` element the default command runs, whatever the image path. */
  lemma LaunchFallsBackToDefault(openCommand: seq<string>, imagePath: string)
    requires Placeholder !in openCommand
    ensures Launch(openCommand, imagePath) == Invocation("xdg-open", ["<path>"])
  {
    DefaultOpenCommand();
  }

  /** The default command has its only placeholder at index 1, after a program that is not one. */
  lemma DefaultCommandShape()
    ensures FirstIndexOf(Default().openCommand, Placeholder) == Some(1)
    ensures Default().openCommand[0] != Placeholder
    ensures multiset(Default().openCommand)[Placeholder] == 1
  {
    var d := Default().openCommand;
    DefaultOpenCommand();
    assert d[0] == "xdg-open" != Placeholder;
    assert d == [d[0]] + [d[1]];
  }

  /**
   * As written, an empty command (or one without a placeholder) opens the
   * literal text `<path>` instead of the image: the image path is not on
   * the command line.
   */
  lemma EmptyCommandLosesImage(imagePath: string)
    requires imagePath != "xdg-open" && imagePath != Placeholder
    ensures imagePath !in Argv(Launch([], imagePath))
  {
    LaunchFallsBackToDefault([], imagePath);
  }

  /** The intended behaviour: the fallback command gets the image path substituted too. */
  function LaunchFixed(openCommand: seq<string>, imagePath: string): (r: Invocation)
    ensures imagePath in Argv(r)
  {
    var command := if Placeholder in openCommand then openCommand else Default().openCommand;
    match FirstIndexOf(command, Placeholder)
    case Some(k) =>
      var argv := command[k := imagePath];
      assert [argv[0]] + argv[1..] == argv && argv[k] == imagePath;
      Invocation(argv[0], argv[1..])
    case None =>
      assert false;
      Invocation(imagePath, [])
  }

  /**
   * The corrected command always carries the image path, and agrees with
   * the code whenever the configured command has a placeholder.
   */
  lemma LaunchFixedPassesImage(openCommand: seq<string>, imagePath: string)
    ensures Placeholder in openCommand ==> LaunchFixed(openCommand, imagePath) == Launch(openCommand, imagePath)
    ensures Placeholder !in openCommand ==> LaunchFixed(openCommand, imagePath) == Invocation("xdg-open", [imagePath])
  {
    var command := if Placeholder in openCommand then openCommand else Default().openCommand;
    DefaultCommandShape();
    var k := FirstIndexOf(command, Placeholder).value;
    LaunchSubstitutesFirstPlaceholder(command, imagePath, k);
    assert Argv(LaunchFixed(openCommand, imagePath))[k] == imagePath;
    if Placeholder !in openCommand {
      DefaultOpenCommand();
    }
  }
}
