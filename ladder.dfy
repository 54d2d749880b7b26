/**
 * The condition ladder of the seller: the `state_num` table (Damaged 1,
 * Used 2, Good 3, New 4) and the `better_state` table, which sends each
 * condition to the next better one and New to the sentinel "the best".
 */
module Ladder {
  import opened Wrappers

  datatype Condition = Damaged | Used | Good | New

  /** The sentinel `better_state` gives for New. */
  const TheBest: string := "the best"

  /** The condition's name, as it appears in catalogue keys and messages. */
  function Name(c: Condition): (s: string)
    ensures s != [] && ';' !in s && ',' !in s && ':' !in s
    ensures s != TheBest
  {
    match c
    case New => "New"
    case Good => "Good"
    case Used => "Used"
    case Damaged => "Damaged"
  }

  /** The condition a name stands for; `None` for a string no table has as a key. */
  function Parse(s: string): (r: Option<Condition>)
    ensures r.Some? ==> Name(r.value) == s
    ensures r.None? ==> forall c :: Name(c) != s
  {
    if s == "New" then Some(New)
    else if s == "Good" then Some(Good)
    else if s == "Used" then Some(Used)
    else if s == "Damaged" then Some(Damaged)
    else None
  }

  /** The `state_num` table. */
  function StateNum(c: Condition): (n: int)
    ensures 1 <= n <= 4
    ensures n == 4 <==> c == New
  {
    match c
    case New => 4
    case Good => 3
    case Used => 2
    case Damaged => 1
  }

  /**
   * The `better_state` table on conditions: `None` stands for the sentinel
   * "the best". Every condition but New climbs exactly one `state_num` rung.
   */
  function BetterState(c: Condition): (r: Option<Condition>)
    ensures r.None? <==> c == New
    ensures r.Some? ==> StateNum(r.value) == StateNum(c) + 1
  {
    match c
    case New => None
    case Good => Some(New)
    case Used => Some(Good)
    case Damaged => Some(Used)
  }

  /**
   * `better_state.get(s)` on strings: `None` is the null a Hashtable answers
   * for a missing key; New gives the sentinel, any other name the name of the
   * next better condition.
   */
  function BetterStateEntry(s: string): (r: Option<string>)
    ensures r.Some? <==> Parse(s).Some?
    ensures r == Some(TheBest) <==> s == "New"
    ensures r.Some? && r.value != TheBest ==>
      Parse(r.value).Some? && StateNum(Parse(r.value).value) == StateNum(Parse(s).value) + 1
  {
    match Parse(s)
    case None => None
    case Some(c) =>
      match BetterState(c)
      case None => Some(TheBest)
      case Some(d) => Some(Name(d))
  }

  /**
   * How many times `better_state` can be followed before the sentinel: the
   * ladder height minus the condition's rung, never more than three.
   */
  function StepsToBest(c: Condition): (n: nat)
    ensures n == 4 - StateNum(c)
    ensures n <= 3
    decreases 4 - StateNum(c)
  {
    match BetterState(c)
    case None => 0
    case Some(d) => 1 + StepsToBest(d)
  }
}
