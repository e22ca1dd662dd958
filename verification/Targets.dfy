/** Targets by identity. */
module Targets {
  /** Identity of a target, a *stats.TargetStats in the source. */
  type Target = nat

  function Members(s: seq<Target>): set<Target>
  {
    set t | t in s
  }
}
