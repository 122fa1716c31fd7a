/** Command-line option lookup (`ArgsHaveOption`), with `os.Args` passed in. */
module Args {

  /** `arg` spells the option in its long (`--name`) or short (`-n`) form. */
  predicate IsOption(arg: string, long: string, short: string)
  {
    arg == "--" + long || arg == "-" + short
  }

  /** `ArgsHaveOption`: the first position of `args`, counting the program
      name at position 0, that spells the option, or `(false, 0)` if none does. */
  method ArgsHaveOption(args: seq<string>, long: string, short: string) returns (hasOption: bool, foundAt: int)
    ensures hasOption ==> 0 <= foundAt < |args| && IsOption(args[foundAt], long, short)
    ensures hasOption ==> forall j :: 0 <= j < foundAt ==> !IsOption(args[j], long, short)
    ensures !hasOption ==> foundAt == 0
    ensures !hasOption <==> forall j :: 0 <= j < |args| ==> !IsOption(args[j], long, short)
  {
    for i := 0 to |args|
      invariant forall j :: 0 <= j < i ==> !IsOption(args[j], long, short)
    {
      if IsOption(args[i], long, short) {
        return true, i;
      }
    }
    return false, 0;
  }
}
