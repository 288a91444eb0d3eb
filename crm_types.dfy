/** The CRM contact lifecycle and the table of allowed stage changes
    (`ContactLifecycle` and `LIFECYCLE_TRANSITIONS`). */
module CrmTypes {

  datatype Lifecycle = Prospect | Lead | Qualified | Enrolled | Active | Completed | Inactive

  /** The stage's name as stored in the `lifecycle` column. */
  function StageName(l: Lifecycle): string
  {
    match l
    case Prospect => "prospect"
    case Lead => "lead"
    case Qualified => "qualified"
    case Enrolled => "enrolled"
    case Active => "active"
    case Completed => "completed"
    case Inactive => "inactive"
  }

  /** `LIFECYCLE_TRANSITIONS[l]`, in the table's order. */
  function Transitions(l: Lifecycle): seq<Lifecycle>
  {
    match l
    case Prospect => [Lead, Inactive]
    case Lead => [Qualified, Inactive]
    case Qualified => [Enrolled, Inactive]
    case Enrolled => [Active, Inactive]
    case Active => [Completed, Inactive]
    case Completed => [Inactive]
    case Inactive => [Prospect]
  }

  /** `LIFECYCLE_TRANSITIONS[from].includes(to)`. */
  predicate CanTransition(from: Lifecycle, to: Lifecycle) { to in Transitions(from) }

  /** Position on the forward chain prospect → lead → qualified → enrolled → active → completed. */
  function Rank(l: Lifecycle): (r: nat)
    requires l != Inactive
    ensures r <= 5
  {
    match l
    case Prospect => 0
    case Lead => 1
    case Qualified => 2
    case Enrolled => 3
    case Active => 4
    case Completed => 5
  }

  /** Stage names are distinct, so a stored name determines the stage. */
  lemma StageNamesDistinct(a: Lifecycle, b: Lifecycle)
    ensures StageName(a) == StageName(b) <==> a == b
  {}

  /** Every stage has an entry, and no entry lists a stage twice. */
  lemma TableIsTotal(l: Lifecycle)
    ensures 1 <= |Transitions(l)| <= 2
    ensures forall i, j :: 0 <= i < j < |Transitions(l)| ==> Transitions(l)[i] != Transitions(l)[j]
  {}

  /** Each stage of the forward chain except `completed` has exactly one
      successor other than `inactive`, one rank further on; `completed` has none. */
  lemma ForwardChain(l: Lifecycle)
    requires l != Inactive
    ensures forall n :: CanTransition(l, n) && n != Inactive ==> Rank(n) == Rank(l) + 1
    ensures l == Completed <==> forall n :: CanTransition(l, n) ==> n == Inactive
    ensures l != Completed ==> exists n :: CanTransition(l, n) && n != Inactive
  {
    if l != Completed {
      assert CanTransition(l, Transitions(l)[0]) && Transitions(l)[0] != Inactive;
    }
  }

  /** Every stage other than `inactive` may be abandoned. */
  lemma AnyStageMayLapse(l: Lifecycle)
    ensures l != Inactive <==> CanTransition(l, Inactive)
  {}

  /** The only way back from `inactive` is to start again as a prospect. */
  lemma ReEngageOnly(n: Lifecycle)
    ensures CanTransition(Inactive, n) <==> n == Prospect
  {}

  /** No stage lists itself. */
  lemma NoSelfTransition(l: Lifecycle)
    ensures !CanTransition(l, l)
  {}
}
