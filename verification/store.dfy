/**
 * The tab's session store (`sessionStorage`): string keys to string values,
 * shared by the teacher page and the student page, and the keys they use.
 */
module Store {
  import opened Wrappers

  type Store = map<string, string>

  /** The roster, written by the student page, read by the teacher page at the end. */
  const RosterKey: string := "registeredStudents"
  const TitleKey: string := "classTitle"
  const TimerKey: string := "classTimer"
  const TotalKey: string := "totalStudents"
  /** Absolute end time of the running session, in epoch milliseconds. */
  const EndKey: string := "classTimerEnd"
  /** "1" while a session runs. */
  const FlagKey: string := "classTimerStarted"

  /** The six keys are six different names. */
  lemma KeysDistinct()
    ensures RosterKey != TitleKey && RosterKey != TimerKey && RosterKey != TotalKey
    ensures RosterKey != EndKey && RosterKey != FlagKey
    ensures TitleKey != TimerKey && TitleKey != TotalKey && TitleKey != EndKey && TitleKey != FlagKey
    ensures TimerKey != TotalKey && TimerKey != EndKey && TimerKey != FlagKey
    ensures TotalKey != EndKey && TotalKey != FlagKey
    ensures EndKey != FlagKey
  {
  }

  /** `sessionStorage.getItem(k)`. */
  function Get(st: Store, k: string): (v: Option<string>)
    ensures v.Some? <==> k in st
    ensures v.Some? ==> v.value == st[k]
  {
    if k in st then Some(st[k]) else None
  }

  /** `if (sessionStorage.getItem(k))`: present and not the empty string. */
  predicate Truthy(st: Store, k: string)
  {
    k in st && st[k] != ""
  }
}
