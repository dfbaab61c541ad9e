/** Command dispatch of `src/main.rs`: the lower-cased first argument selects
    a command; everything unrecognised shows the help text. */
module Cli {
  import opened Prelude

  /** The handler `main` runs. `Install` receives the whole argument vector. */
  datatype Command = Help | Sync | Upgrade | Install(args: seq<string>)

  function Dispatch(args: seq<string>): (r: Command)
    ensures r != Help ==> |args| >= 2
    ensures r.Install? ==> r.args == args
  {
    if |args| < 2 then Help
    else
      match Lower(args[1])
      case "-h" => Help
      case "--help" => Help
      case "s" => Sync
      case "sync" => Sync
      case "u" => Upgrade
      case "upgrade" => Upgrade
      case "i" => Install(args)
      case "install" => Install(args)
      case _ => Help
  }

  /** The lower-cased spellings that select a command other than help. */
  const Recognised: set<string> := {"s", "sync", "u", "upgrade", "i", "install"}

  /** Help is shown exactly when the command word is missing or is none of the
      recognised spellings, whatever its case. */
  lemma DispatchHelpIff(args: seq<string>)
    ensures Dispatch(args) == Help <==> |args| < 2 || Lower(args[1]) !in Recognised
  {
  }

  /** Each recognised spelling selects its command. */
  lemma DispatchAliases(args: seq<string>)
    requires |args| >= 2
    ensures Lower(args[1]) in {"s", "sync"} ==> Dispatch(args) == Sync
    ensures Lower(args[1]) in {"u", "upgrade"} ==> Dispatch(args) == Upgrade
    ensures Lower(args[1]) in {"i", "install"} ==> Dispatch(args) == Install(args)
  {
  }

  /** The command word is compared after lower-casing: replacing it by its
      lower-case form changes nothing but the vector handed to install. */
  lemma DispatchIgnoresCase(args: seq<string>)
    requires |args| >= 2
    ensures var lowered := args[1 := Lower(args[1])];
            (Dispatch(args) == Dispatch(lowered) || (Dispatch(args).Install? && Dispatch(lowered) == Install(lowered)))
  {
    LowerIdempotent(args[1]);
  }

  /** Commands the help text lists but `main` does not route: they all show help. */
  lemma UnroutedCommandsShowHelp(prog: string, word: string)
    requires word in {"up", "r", "remove", "info", "search", "list"}
    ensures Dispatch([prog, word]) == Help
  {
    assert forall i :: 0 <= i < |word| ==> LowerChar(word[i]) == word[i];
    assert Lower(word) == word;
  }
}
