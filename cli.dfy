/** The argument rewrite at the start of `RunCustom` (cmd/scrapbox/cli.go):
    a version flag anywhere on the command line runs the `version` command. */
module Cli {

  /** The flags that ask for the version. */
  predicate IsVersionFlag(arg: string) {
    arg == "-v" || arg == "-version" || arg == "--version"
  }

  /** With a version flag anywhere, `"version"` followed by every original
      argument in order (one element added, however many flags there are);
      otherwise the arguments unchanged. */
  method RewriteVersionArgs(args: seq<string>) returns (r: seq<string>)
    ensures (exists k :: 0 <= k < |args| && IsVersionFlag(args[k])) ==> r == ["version"] + args
    ensures (forall k :: 0 <= k < |args| ==> !IsVersionFlag(args[k])) ==> r == args
  {
    r := args;
    var i := 0;
    while i < |args|
      invariant 0 <= i <= |args|
      invariant r == args
      invariant forall k :: 0 <= k < i ==> !IsVersionFlag(args[k])
    {
      var arg := args[i];
      if IsVersionFlag(arg) {
        var newArgs := new string[|args| + 1];
        newArgs[0] := "version";
        var j := 0;
        while j < |args|
          invariant 0 <= j <= |args|
          invariant newArgs[0] == "version"
          invariant forall k :: 0 <= k < j ==> newArgs[k + 1] == args[k]
        {
          newArgs[j + 1] := args[j];
          j := j + 1;
        }
        assert newArgs[..] == ["version"] + args;
        r := newArgs[..];
        break;
      }
      i := i + 1;
    }
  }

}
