/** A registry of named real-valued parameters of a probability
    distribution: each name is registered once and then looked up. */
module Parameters {
  import opened Wrappers

  datatype ParameterError =
    | UnknownParameter(name: string)
    | AlreadyRegistered(name: string)

  /** The value registered under name, or UnknownParameter when there is none. */
  function Lookup(parameters: map<string, real>, name: string): (r: Result<real, ParameterError>)
    ensures r.Ok? <==> name in parameters
    ensures r.Ok? ==> r.value == parameters[name]
    ensures r.Err? ==> r.error == UnknownParameter(name)
  {
    if name !in parameters then Err(UnknownParameter(name)) else Ok(parameters[name])
  }

  /** The map after registering name with value, or AlreadyRegistered when the
      name is taken (the map is then left as it was). */
  function Register(parameters: map<string, real>, name: string, value: real): (r: Result<map<string, real>, ParameterError>)
    ensures r.Ok? <==> name !in parameters
    ensures r.Ok? ==> r.value.Keys == parameters.Keys + {name} && r.value[name] == value
    ensures r.Ok? ==> forall other :: other in parameters ==> r.value[other] == parameters[other]
    ensures r.Err? ==> r.error == AlreadyRegistered(name)
  {
    if name in parameters then Err(AlreadyRegistered(name)) else Ok(parameters[name := value])
  }

  /** After a successful registration the name looks up to its value, every
      other name looks up as before, and no name is lost. */
  lemma RegisterThenLookup(parameters: map<string, real>, name: string, value: real, other: string)
    requires Register(parameters, name, value).Ok?
    ensures var after := Register(parameters, name, value).value;
            Lookup(after, name) == Ok(value) &&
            (other != name ==> Lookup(after, other) == Lookup(parameters, other)) &&
            parameters.Keys <= after.Keys
  {
  }

  /** A name can be registered at most once: registering it again fails and
      keeps the value of the first registration. */
  lemma RegisterTwiceFails(parameters: map<string, real>, name: string, first: real, second: real)
    requires name !in parameters
    ensures var after := Register(parameters, name, first).value;
            Register(after, name, second) == Err(AlreadyRegistered(name)) &&
            Lookup(after, name) == Ok(first)
  {
  }

  /** The registry object (Parameters), holding the map it fills in place. */
  class Parameters {
    var parameters: map<string, real>

    /** An empty registry. */
    constructor()
      ensures parameters == map[]
    {
      parameters := map[];
    }

    /** The value of a registered parameter (getParameter); an unknown name
        fails. The registry is not changed. */
    method GetParameter(name: string) returns (r: Result<real, ParameterError>)
      ensures r == Lookup(parameters, name)
      ensures r.Ok? <==> name in parameters
      ensures r.Ok? ==> r.value == parameters[name]
    {
      if name !in parameters {
        return Err(UnknownParameter(name));
      }
      return Ok(parameters[name]);
    }

    /** Registers a new parameter (setParameter); a name that is already
        registered fails and leaves the registry as it was. */
    method SetParameter(name: string, value: real) returns (outcome: Outcome<ParameterError>)
      modifies this
      ensures old(name in parameters) ==> outcome == Fail(AlreadyRegistered(name)) && parameters == old(parameters)
      ensures old(name !in parameters) ==> outcome == Pass && parameters == old(parameters)[name := value]
      ensures Register(old(parameters), name, value) == (if outcome.Pass? then Ok(parameters) else Err(outcome.error))
    {
      if name in parameters {
        return Fail(AlreadyRegistered(name));
      }
      parameters := parameters[name := value];
      outcome := Pass;
    }
  }
}
