/** `NS_Args`: the command line kept in the global vector `cmd_args`, and the
    two queries on it. An argument names a parameter when it starts with the
    parameter and either ends there or goes on with one of the delimiters
    `=`, `:` or `|`; what follows the delimiter is the parameter's value. */
module Args {
  import opened Common

  predicate IsDelimiter(c: char)
  {
    c == '=' || c == ':' || c == '|'
  }

  /** `arg.find(param) == 0`: the argument starts with the parameter. */
  predicate StartsWith(arg: TString, param: TString)
  {
    |param| <= |arg| && arg[..|param|] == param
  }

  /** The test `cmdArgContains` applies to each argument: the argument is the
      parameter itself, or carries a value for it. */
  predicate Names(arg: TString, param: TString)
    ensures Names(arg, param) <==> arg == param || Carries(arg, param)
  {
    StartsWith(arg, param) && (|param| == |arg| || IsDelimiter(arg[|param|]))
  }

  /** The test `cmdArgValue` applies to each argument: a delimiter must follow,
      and the argument splits into the parameter, the delimiter and the value. */
  predicate Carries(arg: TString, param: TString)
    ensures Carries(arg, param) ==>
      |param| < |arg| && IsDelimiter(arg[|param|]) && arg == param + [arg[|param|]] + arg[|param| + 1..]
  {
    StartsWith(arg, param) && |param| < |arg| && IsDelimiter(arg[|param|])
  }

  /** Every argument that carries a value also names its parameter. */
  lemma CarriesNames(arg: TString, param: TString)
    requires Carries(arg, param)
    ensures Names(arg, param)
  {
  }

  class CmdArgs {
    var cmdArgs: seq<TString>

    constructor ()
      ensures cmdArgs == []
    {
      cmdArgs := [];
    }

    /** `parseCmdArgs(argc, argv)`: appends every argument, the program name
        included. */
    method ParseCmdArgs(argv: seq<TString>)
      modifies this
      ensures cmdArgs == old(cmdArgs) + argv
    {
      var i := 0;
      while i < |argv|
        invariant i <= |argv|
        invariant cmdArgs == old(cmdArgs) + argv[..i]
      {
        cmdArgs := cmdArgs + [argv[i]];
        assert argv[..i + 1] == argv[..i] + [argv[i]];
        i := i + 1;
      }
      assert argv[..i] == argv;
    }

    /** `cmdArgContains(param)`: some argument is the bare parameter or
        carries a value for it. */
    predicate Contains(param: TString)
      reads this
      ensures Contains(param) <==>
        exists i :: 0 <= i < |cmdArgs| && (cmdArgs[i] == param || Carries(cmdArgs[i], param))
    {
      exists i :: 0 <= i < |cmdArgs| && Names(cmdArgs[i], param)
    }

    /** `cmdArgValue(param)`: the text after the delimiter of the first
        argument that carries a value for the parameter, or `""` if none does.
        A bare parameter (`--input` alone) is contained but has no value. */
    method Value(param: TString) returns (r: TString)
      ensures (exists i :: 0 <= i < |cmdArgs| && Carries(cmdArgs[i], param)
                 && (forall j :: 0 <= j < i ==> !Carries(cmdArgs[j], param))
                 && r == cmdArgs[i][|param| + 1..])
           || ((forall i :: 0 <= i < |cmdArgs| ==> !Carries(cmdArgs[i], param)) && r == [])
      ensures r != [] ==> Contains(param)
    {
      var len := |param|;
      var k := 0;
      while k < |cmdArgs|
        invariant k <= |cmdArgs|
        invariant forall j :: 0 <= j < k ==> !Carries(cmdArgs[j], param)
      {
        var arg := cmdArgs[k];
        if len <= |arg| && arg[..len] == param && len < |arg| && IsDelimiter(arg[len]) {
          CarriesNames(arg, param);
          return arg[len + 1..];
        }
        k := k + 1;
      }
      return [];
    }
  }

  /** A parameter given bare is contained, whatever else is on the command line. */
  lemma BareParameter(c: CmdArgs, param: TString)
    requires param in c.cmdArgs
    ensures c.Contains(param)
  {
    var i :| 0 <= i < |c.cmdArgs| && c.cmdArgs[i] == param;
    assert Names(c.cmdArgs[i], param);
  }
}
