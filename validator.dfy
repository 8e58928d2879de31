/** validator.go: the checks a route's pattern is put through before registration. */
module Validators {
  import opened Options
  import opened Routes
  import opened Errors

  /** The Validator implementations of the package: only the path validator. */
  datatype Validator = PathValidator
  {
    /** Rejects an empty pattern, then one that does not start with '/'; accepts
        the rest. The route is only read. */
    function Validate(r: Route): (err: Option<BadPathError>)
      reads r
      ensures err == None <==> (|r.pattern| > 0 && r.pattern[0] == '/')
      ensures r.pattern == "" ==> err == Some(BadPathError("Path is empty"))
      ensures r.pattern != "" && r.pattern[0] != '/' ==> err == Some(BadPathError("Path starts not with a /"))
    {
      if |r.GetPattern()| == 0 then Some(NewBadPathError("Path is empty"))
      else if r.GetPattern()[0] != '/' then Some(NewBadPathError("Path starts not with a /"))
      else None
    }
  }

  /** Validatoren: the package's list of validators, holding the path validator
      only. No registration path runs it. */
  const Validatoren: seq<Validator> := [PathValidator]

  /** Running every validator of Validatoren accepts exactly the patterns that
      start with '/'; the list holds the path validator alone. */
  lemma ValidatorenAcceptRooted(r: Route)
    ensures Validatoren == [PathValidator]
    ensures (forall v | v in Validatoren :: v.Validate(r) == None) <==> (|r.pattern| > 0 && r.pattern[0] == '/')
  {
    assert PathValidator in Validatoren;
  }
}
