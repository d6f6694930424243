/** The fixed flag families of the provider directory. */
module Flags {

  /** Which family a flag belongs to. */
  datatype Kind = AudienceKind | ServiceKind

  /** The service flags, in the order normalisation melts them. */
  const Services: seq<string> := [
    "sud_residential", "substance_use", "mental_health", "opioid", "housing",
    "involuntary", "detox", "mh_residential", "crisis_services", "mental_health_and_sud"]

  /** The audience flags, in the order normalisation melts them. */
  const Audiences: seq<string> := ["adults", "youth", "families", "older_adults"]

  function Names(kind: Kind): seq<string>
  {
    match kind
    case AudienceKind => Audiences
    case ServiceKind => Services
  }

  /** A flag counts only when it is present and equal to `True`; absent means NaN. */
  predicate FlagOn(flags: map<string, bool>, name: string)
  {
    name in flags && flags[name]
  }
}
