/** A chain of parsers: the first one that supports a resource parses it. */
module DelegatingParsing {
  import opened Wrappers
  import opened BundleConfigs
  import opened Parsers

  /** A call the chain makes on one of its parsers, by position in the chain. */
  datatype Call = SupportsCall(index: nat) | ParseCall(index: nat)

  /** Asking the first `n` parsers, in order, whether they support the resource. */
  function SupportsCalls(n: nat): (calls: seq<Call>)
    ensures |calls| == n
    ensures forall i :: 0 <= i < n ==> calls[i] == SupportsCall(i)
  {
    if n == 0 then [] else SupportsCalls(n - 1) + [SupportsCall(n - 1)]
  }

  /** The position of the first parser that supports the resource, if any. */
  function FirstSupporting(parsers: seq<Parser>, resource: Resource, typeName: Option<string>): (r: Option<nat>)
    ensures r.Some? ==> r.value < |parsers| && parsers[r.value].supports(resource, typeName)
    ensures r.Some? ==> forall j :: 0 <= j < r.value ==> !parsers[j].supports(resource, typeName)
    ensures r.None? <==> forall j :: 0 <= j < |parsers| ==> !parsers[j].supports(resource, typeName)
  {
    if parsers == [] then None
    else if parsers[0].supports(resource, typeName) then Some(0)
    else
      match FirstSupporting(parsers[1..], resource, typeName)
      case None => None
      case Some(i) => Some(i + 1)
  }

  /** How a resource shows in the error message; other values than paths are not rendered. */
  function ResourceText(resource: Resource): string {
    match resource
    case PathResource(path) => path
    case OtherResource => ""
  }

  /** The InvalidArgumentException message when no parser supports the resource; a null type prints as nothing. */
  function CannotParse(resource: Resource, typeName: Option<string>): string {
    var typeText := match typeName case Some(t) => t case None => "";
    "Cannot parse resources \"" + ResourceText(resource) + "\" (type: " + typeText + ")"
  }

  /** Appending a parser never changes which earlier parser is chosen; it is consulted only when none of them supports the resource. */
  lemma {:induction false} FirstSupportingAppend(parsers: seq<Parser>, p: Parser, resource: Resource, typeName: Option<string>)
    ensures FirstSupporting(parsers + [p], resource, typeName) ==
      if FirstSupporting(parsers, resource, typeName).Some? then FirstSupporting(parsers, resource, typeName)
      else if p.supports(resource, typeName) then Some(|parsers|)
      else None
  {
    if parsers != [] && !parsers[0].supports(resource, typeName) {
      assert (parsers + [p])[1..] == parsers[1..] + [p];
      FirstSupportingAppend(parsers[1..], p, resource, typeName);
    }
  }

  class DelegatingParser {
    /** The chain, in registration order. */
    var parsers: seq<Parser>

    constructor()
      ensures parsers == []
    {
      parsers := [];
    }

    /** Appends a parser to the end of the chain. */
    method AddParser(parser: Parser)
      modifies this
      ensures parsers == old(parsers) + [parser]
    {
      parsers := parsers + [parser];
    }

    /**
     * True exactly when some parser of the chain supports the resource. The
     * parsers are asked in order up to the first one that says yes, and none
     * of them is asked to parse.
     */
    method Supports(resource: Resource, typeName: Option<string>) returns (r: bool, ghost calls: seq<Call>)
      ensures r <==> exists j :: 0 <= j < |parsers| && parsers[j].supports(resource, typeName)
      ensures r <==> FirstSupporting(parsers, resource, typeName).Some?
      ensures calls == match FirstSupporting(parsers, resource, typeName)
        case Some(i) => SupportsCalls(i + 1)
        case None => SupportsCalls(|parsers|)
    {
      calls := [];
      for i := 0 to |parsers|
        invariant calls == SupportsCalls(i)
        invariant forall j :: 0 <= j < i ==> !parsers[j].supports(resource, typeName)
      {
        calls := calls + [SupportsCall(i)];
        if parsers[i].supports(resource, typeName) {
          assert FirstSupporting(parsers, resource, typeName) == Some(i);
          return true, calls;
        }
      }
      return false, calls;
    }

    /**
     * Hands the resource to the first parser that supports it and returns
     * what that parser returns; throws InvalidArgumentException when none
     * does.
     */
    method Parse(resource: Resource, typeName: Option<string>) returns (r: Result<seq<BundleConfig>, Exception>, ghost calls: seq<Call>)
      ensures match FirstSupporting(parsers, resource, typeName)
        case Some(i) => r == parsers[i].parse(resource, typeName)
        case None => r == Failure(InvalidArgumentException(CannotParse(resource, typeName)))
      ensures calls == match FirstSupporting(parsers, resource, typeName)
        case Some(i) => SupportsCalls(i + 1) + [ParseCall(i)]
        case None => SupportsCalls(|parsers|)
    {
      calls := [];
      for i := 0 to |parsers|
        invariant calls == SupportsCalls(i)
        invariant forall j :: 0 <= j < i ==> !parsers[j].supports(resource, typeName)
      {
        calls := calls + [SupportsCall(i)];
        if parsers[i].supports(resource, typeName) {
          assert FirstSupporting(parsers, resource, typeName) == Some(i);
          r := parsers[i].parse(resource, typeName);
          return r, calls + [ParseCall(i)];
        }
      }
      return Failure(InvalidArgumentException(CannotParse(resource, typeName))), calls;
    }
  }
}
