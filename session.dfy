/**
 * The `Session` model object of the hosting platform's back end: a session
 * id, the instructor's id, the list of enrolled student ids and a status
 * that only ever moves from `active` to `ended`.
 */
module Sessions {
  import opened Wrappers
  import opened Seqs

  /**
   * A JavaScript array of ids. It is an object of its own, so a caller that
   * hands one to a session keeps sharing it until the session replaces it.
   */
  class IdList {
    var items: seq<string>

    constructor (items: seq<string>)
      ensures this.items == items
    {
      this.items := items;
    }
  }

  /** The list after `includes`-then-`push`: `x` is appended only when absent. */
  function Added(s: seq<string>, x: string): (r: seq<string>)
    ensures forall y :: y in r <==> y in s || y == x
    ensures s <= r && |r| <= |s| + 1
    ensures x in s ==> r == s
    ensures Distinct(s) ==> Distinct(r)
  {
    if x in s then s
    else
      SnocDistinctIf(s, x);
      s + [x]
  }

  /** Appending an absent element keeps a duplicate-free list duplicate-free. */
  lemma SnocDistinctIf(s: seq<string>, x: string)
    requires x !in s
    ensures Distinct(s) ==> Distinct(s + [x])
  {
    if Distinct(s) {
      SnocDistinct(s, x);
    }
  }

  /** Adding the same student twice is adding them once. */
  lemma AddedIdempotent(s: seq<string>, x: string)
    ensures Added(Added(s, x), x) == Added(s, x)
  {
  }

  /** Removing a student who was just added to a list without them restores the list. */
  lemma RemoveUndoesAdd(s: seq<string>, x: string)
    requires x !in s
    ensures Without(Added(s, x), x) == s
  {
    WithoutAppend(s, [x], x);
    WithoutAbsent(s, x);
    assert Without([x], x) == [];
  }

  class Session {
    var sessionId: string
    var instructorId: string
    var studentIds: IdList
    var status: string

    /**
     * `new Session(sessionId, instructorId, studentIds, status)`. An omitted
     * (`undefined`) list defaults to a new empty array and an omitted
     * status to `active`; a given list is kept, not copied.
     */
    constructor (sessionId: string, instructorId: string, studentIds: Option<IdList>, status: Option<string>)
      ensures this.sessionId == sessionId && this.instructorId == instructorId
      ensures studentIds.Some? ==> this.studentIds == studentIds.value
      ensures studentIds.None? ==> fresh(this.studentIds) && this.studentIds.items == []
      ensures this.status == status.GetOr("active")
    {
      this.sessionId := sessionId;
      this.instructorId := instructorId;
      if studentIds.Some? {
        this.studentIds := studentIds.value;
      } else {
        this.studentIds := new IdList([]);
      }
      this.status := status.GetOr("active");
    }

    /**
     * `addStudent`: pushes onto the session's array in place, so every holder
     * of that array sees the new id.
     */
    method AddStudent(studentId: string)
      modifies studentIds
      ensures studentIds.items == Added(old(studentIds.items), studentId)
    {
      if studentId !in studentIds.items {
        studentIds.items := studentIds.items + [studentId];
      }
    }

    /**
     * `removeStudent`: `filter` builds a new array and the session is pointed
     * at it; the array it held before is left as it was.
     */
    method RemoveStudent(studentId: string)
      modifies this
      ensures fresh(studentIds) && studentIds.items == Without(old(studentIds.items), studentId)
      ensures unchanged(old(studentIds))
      ensures sessionId == old(sessionId) && instructorId == old(instructorId) && status == old(status)
    {
      studentIds := new IdList(Without(studentIds.items, studentId));
    }

    /** `endSession`: only the status changes, so ending an ended session changes nothing. */
    method EndSession()
      modifies this`status
      ensures status == "ended"
      ensures old(status) == "ended" ==> unchanged(this)
    {
      status := "ended";
    }
  }
}
