/**
 * The directory search of open by name, stated on the sequence of entries
 * (slots) of a directory: slots are read in order until a never-used slot
 * ends the directory or a live entry carries the name, and the first
 * free-or-deleted slot met on the way is remembered for a new entry.
 */
module DirScan {
  import opened Bytes
  import opened DirEntry

  /** A slot that has never been used (DIR_NAME_FREE): no entries follow it. */
  predicate EndSlot(e: Entry) {
    |e.name| > 0 && e.name[0] == NAME_FREE
  }

  /** A slot a new entry may take: never used or deleted. */
  predicate Vacant(e: Entry) {
    |e.name| > 0 && (e.name[0] == NAME_FREE || e.name[0] == NAME_DELETED)
  }

  /** An entry that open by index and openNext accept: neither vacant nor "." or "..". */
  predicate Listed(e: Entry) {
    !Vacant(e) && |e.name| > 0 && e.name[0] != NAME_DOT
  }

  /** A live entry whose 11-byte name is name. */
  predicate Named(e: Entry, name: seq<byte>) {
    !Vacant(e) && e.name == name
  }

  /** The search reads slot i: no slot before it ends the directory or carries the name. */
  predicate Reaches(slots: seq<Entry>, name: seq<byte>, i: nat) {
    forall j :: 0 <= j < i && j < |slots| ==> !EndSlot(slots[j]) && !Named(slots[j], name)
  }

  /** The outcome of the search: the slot carrying the name, and the first vacant slot read. */
  datatype Search = Search(found: Option<nat>, vacant: Option<nat>)

  /** The search from slot k on, with the first vacant slot so far. */
  function ScanFrom(slots: seq<Entry>, name: seq<byte>, k: nat, vacant: Option<nat>): (s: Search)
    requires k <= |slots|
    ensures s.found.Some? ==> k <= s.found.value < |slots|
    decreases |slots| - k
  {
    if k == |slots| then Search(None, vacant)
    else
      var v := if vacant.None? && Vacant(slots[k]) then Some(k) else vacant;
      if EndSlot(slots[k]) then Search(None, v)
      else if Named(slots[k], name) then Search(Some(k), v)
      else ScanFrom(slots, name, k + 1, v)
  }

  /** One step of the search: what reading slot k decides. */
  lemma ScanFromStep(slots: seq<Entry>, name: seq<byte>, k: nat, vacant: Option<nat>)
    requires k < |slots|
    ensures var v := if vacant.None? && Vacant(slots[k]) then Some(k) else vacant;
      && (EndSlot(slots[k]) ==> ScanFrom(slots, name, k, vacant) == Search(None, v))
      && (!EndSlot(slots[k]) && Named(slots[k], name) ==> ScanFrom(slots, name, k, vacant) == Search(Some(k), v))
      && (!EndSlot(slots[k]) && !Named(slots[k], name) ==> ScanFrom(slots, name, k, vacant) == ScanFrom(slots, name, k + 1, v))
  {
  }

  /** The search of a whole directory. */
  function Scan(slots: seq<Entry>, name: seq<byte>): Search {
    ScanFrom(slots, name, 0, None)
  }

  /** What the search from slot k finds, given what it remembered from the slots before k. */
  lemma {:induction false} ScanFromMeaning(slots: seq<Entry>, name: seq<byte>, k: nat, vacant: Option<nat>)
    requires k <= |slots| && Reaches(slots, name, k)
    requires vacant.None? ==> forall l :: 0 <= l < k ==> !Vacant(slots[l])
    requires vacant.Some? ==> vacant.value < k && Vacant(slots[vacant.value])
                              && forall l :: 0 <= l < vacant.value ==> !Vacant(slots[l])
    ensures var s := ScanFrom(slots, name, k, vacant);
      && (s.found.Some? ==> s.found.value < |slots| && Named(slots[s.found.value], name) && Reaches(slots, name, s.found.value))
      && (s.found.None? ==> forall i :: 0 <= i < |slots| && Reaches(slots, name, i) ==> !Named(slots[i], name))
      && (s.vacant.Some? ==> s.vacant.value < |slots| && Vacant(slots[s.vacant.value])
                             && Reaches(slots, name, s.vacant.value)
                             && (forall l :: 0 <= l < s.vacant.value ==> !Vacant(slots[l]))
                             && (s.found.Some? ==> s.vacant.value < s.found.value))
      && (s.vacant.None? ==> forall l :: 0 <= l < |slots| && Reaches(slots, name, l) ==> !Vacant(slots[l]))
    decreases |slots| - k
  {
    if k < |slots| {
      var v := if vacant.None? && Vacant(slots[k]) then Some(k) else vacant;
      if !EndSlot(slots[k]) && !Named(slots[k], name) {
        assert Reaches(slots, name, k + 1);
        ScanFromMeaning(slots, name, k + 1, v);
      }
    }
  }

  /**
   * The search finds the first slot it reaches that carries the name, and
   * remembers the first vacant slot it reaches; when it finds nothing, no
   * slot it reaches carries the name, and when it remembers nothing, no slot
   * it reaches is vacant.
   */
  lemma ScanMeaning(slots: seq<Entry>, name: seq<byte>)
    ensures var s := Scan(slots, name);
      && (s.found.Some? ==> s.found.value < |slots| && Named(slots[s.found.value], name) && Reaches(slots, name, s.found.value))
      && (s.found.None? ==> forall i :: 0 <= i < |slots| && Reaches(slots, name, i) ==> !Named(slots[i], name))
      && (s.vacant.Some? ==> s.vacant.value < |slots| && Vacant(slots[s.vacant.value])
                             && Reaches(slots, name, s.vacant.value)
                             && (forall l :: 0 <= l < s.vacant.value ==> !Vacant(slots[l]))
                             && (s.found.Some? ==> s.vacant.value < s.found.value))
      && (s.vacant.None? ==> forall l :: 0 <= l < |slots| && Reaches(slots, name, l) ==> !Vacant(slots[l]))
  {
    ScanFromMeaning(slots, name, 0, None);
  }

  /** A name that no slot carries is not found. */
  lemma AbsentNotFound(slots: seq<Entry>, name: seq<byte>)
    requires forall i :: 0 <= i < |slots| ==> !Named(slots[i], name)
    ensures Scan(slots, name).found.None?
  {
    ScanMeaning(slots, name);
  }

  /** A name carried by a slot before any end slot is found, at the first slot carrying it. */
  lemma PresentFound(slots: seq<Entry>, name: seq<byte>, i: nat)
    requires i < |slots| && Named(slots[i], name)
    requires forall j :: 0 <= j < i ==> !EndSlot(slots[j]) && !Named(slots[j], name)
    ensures Scan(slots, name).found == Some(i)
  {
    ScanMeaning(slots, name);
  }

  /** The entry as remove leaves it: the deleted mark (DIR_NAME_DELETED) in the first byte of its name. */
  function MarkDeleted(e: Entry): (r: Entry)
    requires WellFormed(e)
    ensures WellFormed(r) && Vacant(r) && !EndSlot(r) && !Listed(r)
    ensures forall name :: !Named(r, name)
    ensures r.name[1..] == e.name[1..] && r.(name := e.name) == e
  {
    e.(name := e.name[0 := NAME_DELETED])
  }

  // ---------------------------------------------------------------- openNext

  /** No slot from k up to (not including) j ends the directory. */
  predicate Unended(slots: seq<Entry>, k: nat, j: nat) {
    forall l :: k <= l < j && l < |slots| ==> !EndSlot(slots[l])
  }

  /** An entry openNext opens: listed, and a file or a subdirectory (not a volume label). */
  predicate Openable(e: Entry) {
    Listed(e) && IsFileOrSubdir(e)
  }

  /**
   * The slot openNext stops at, reading from slot k on: the first slot
   * that is openable, unless a never-used slot or the end of the
   * directory comes first.
   */
  function NextListed(slots: seq<Entry>, k: nat): (n: Option<nat>)
    requires k <= |slots|
    ensures n.Some? ==> k <= n.value < |slots|
    decreases |slots| - k
  {
    if k == |slots| || EndSlot(slots[k]) then None
    else if Openable(slots[k]) then Some(k)
    else NextListed(slots, k + 1)
  }

  /**
   * Reading from slot k on finds no file or subdirectory because a
   * never-used slot comes first, rather than the end of the directory.
   */
  function StopsAtFree(slots: seq<Entry>, k: nat): bool
    requires k <= |slots|
    decreases |slots| - k
  {
    if k == |slots| then false
    else if EndSlot(slots[k]) then true
    else if Openable(slots[k]) then false
    else StopsAtFree(slots, k + 1)
  }

  /** One step of openNext: what reading slot k decides. */
  lemma NextListedStep(slots: seq<Entry>, k: nat)
    requires k < |slots|
    ensures EndSlot(slots[k]) ==> NextListed(slots, k) == None
    ensures !EndSlot(slots[k]) && Openable(slots[k]) ==> NextListed(slots, k) == Some(k)
    ensures !EndSlot(slots[k]) && !Openable(slots[k]) ==> NextListed(slots, k) == NextListed(slots, k + 1)
    ensures EndSlot(slots[k]) ==> StopsAtFree(slots, k)
    ensures !EndSlot(slots[k]) && !Openable(slots[k]) ==> StopsAtFree(slots, k) == StopsAtFree(slots, k + 1)
  {
  }

  /** openNext reads on past a slot that neither ends the directory nor is openable. */
  lemma NextListedSkip(slots: seq<Entry>, k: nat)
    requires k < |slots| && !EndSlot(slots[k]) && !Openable(slots[k])
    ensures NextListed(slots, k) == NextListed(slots, k + 1)
  {
  }

  /**
   * What openNext finds: the first openable slot from k on, with no slot
   * ending the directory before it; when it finds nothing, every slot from
   * k on is either not openable or after a slot that ends the directory.
   */
  lemma {:induction false} NextListedMeaning(slots: seq<Entry>, k: nat)
    requires k <= |slots|
    ensures var n := NextListed(slots, k);
      && (n.Some? ==> k <= n.value < |slots| && Openable(slots[n.value]) && Unended(slots, k, n.value + 1)
                      && forall j :: k <= j < n.value ==> !Openable(slots[j]))
      && (n.None? ==> forall j :: k <= j < |slots| && Unended(slots, k, j + 1) ==> !Openable(slots[j]))
    decreases |slots| - k
  {
    if k < |slots| && !EndSlot(slots[k]) && !Openable(slots[k]) {
      NextListedMeaning(slots, k + 1);
      var n := NextListed(slots, k + 1);
      if n.Some? {
        forall l | k <= l < n.value + 1 && l < |slots|
          ensures !EndSlot(slots[l])
        {
          if l > k {
            assert Unended(slots, k + 1, n.value + 1);
          }
        }
      } else {
        forall j | k <= j < |slots| && Unended(slots, k, j + 1)
          ensures !Openable(slots[j])
        {
          if j > k {
            assert Unended(slots, k + 1, j + 1);
          }
        }
      }
    }
  }

  // ----------------------------------------------------------------- readDir

  /**
   * What readDir returns, as written, on a readable directory whose
   * cursor is at slot k: 32 for the next file or subdirectory, 0 at the end
   * of the directory, and -1 when a never-used slot comes first.
   */
  function ReadDirAsWrittenResult(slots: seq<Entry>, k: nat): (r: int)
    requires k <= |slots|
  {
    if NextListed(slots, k).Some? then ENTRY_SIZE
    else if StopsAtFree(slots, k) then -1
    else 0
  }

  /** What readDir returns on a readable directory whose cursor is at slot k: 32 for the next file or subdirectory, else 0. */
  function ReadDirResult(slots: seq<Entry>, k: nat): (r: int)
    requires k <= |slots|
    ensures r == 0 || r == ENTRY_SIZE
    ensures r == ENTRY_SIZE <==> NextListed(slots, k).Some?
  {
    if NextListed(slots, k).Some? then ENTRY_SIZE else 0
  }

  /**
   * As written, readDir reports an error for a directory whose slots
   * after the cursor are all never used, a directory with no more
   * entries, for which it is meant to return 0.
   */
  lemma ReadDirFreeSlotIsError(e: Entry)
    requires EndSlot(e)
    ensures NextListed([e], 0).None? && ReadDirAsWrittenResult([e], 0) == -1 && ReadDirResult([e], 0) == 0
  {
  }

  /** The two agree everywhere but where a never-used slot ends the reading. */
  lemma ReadDirResultsAgree(slots: seq<Entry>, k: nat)
    requires k <= |slots|
    ensures ReadDirAsWrittenResult(slots, k) != ReadDirResult(slots, k) <==> NextListed(slots, k).None? && StopsAtFree(slots, k)
  {
  }
}
