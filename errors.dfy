/** `ValidationError`: an immutable pair of the path where a check failed and its message. */
module Errors {
  import opened Wrappers
  import opened Paths

  datatype ValidationError = ValidationError(path: Path, message: string)
  {
    /** `toString()`: `ValidationError @ ( <path> => <message> )`. */
    function ToString(): (s: string)
      ensures |s| == |"ValidationError @ ( "| + |path.ToString()| + |" => "| + |message| + |" )"|
      ensures s[..|"ValidationError @ ( "|] == "ValidationError @ ( "
      ensures s[|"ValidationError @ ( "|..|"ValidationError @ ( "| + |path.ToString()|] == path.ToString()
      ensures s[|"ValidationError @ ( "| + |path.ToString()|..|s| - |message| - 2] == " => "
      ensures s[|s| - |message| - 2..] == message + " )"
    {
      var p := path.ToString();
      var s := "ValidationError @ ( " + p + " => " + message + " )";
      assert s[..20] == "ValidationError @ ( ";
      assert s[20..20 + |p|] == p;
      assert s[20 + |p|..|s| - |message| - 2] == " => ";
      assert s[|s| - |message| - 2..] == message + " )";
      s
    }
  }

  /** `new ValidationError(path, message)` and `ValidationError.at(path, message)`. */
  function At(path: Path, message: string): (e: ValidationError)
    ensures e.path == path && e.message == message
  {
    ValidationError(path, message)
  }

  /** `new ValidationError(message)` and `ValidationError.of(message)`: the error is at `Root`. */
  function Of(message: string): (e: ValidationError)
    ensures e == At(Root, message)
  {
    ValidationError(Root, message)
  }

  /** `new ValidationError(path, exception)` and `ValidationError.at(path, exception)`: the
      message is the exception's message. */
  function AtFault(path: Path, fault: Fault): (e: ValidationError)
    ensures e == At(path, fault.message)
  {
    ValidationError(path, fault.message)
  }

  /** `new ValidationError(exception)` and `ValidationError.of(exception)`: the exception's
      message, at `Root`. */
  function OfFault(fault: Fault): (e: ValidationError)
    ensures e == Of(fault.message) && e == AtFault(Root, fault)
  {
    ValidationError(Root, fault.message)
  }

  /** An error at the root path renders with the bare `/`. */
  lemma ToStringAtRoot(message: string)
    ensures Of(message).ToString() == "ValidationError @ ( / => " + message + " )"
  {
  }

  /** An error below the root renders its path's nodes after `/ `. */
  lemma ToStringAtField(key: string, message: string)
    ensures At(Root.Field(key), message).ToString() == "ValidationError @ ( / " + key + " => " + message + " )"
  {
    var p := Root.Field(key);
    assert p.nodes == [Key(key)];
    assert Renderings(p.nodes) == [key];
    assert p.ToString() == "/ " + key;
  }
}
