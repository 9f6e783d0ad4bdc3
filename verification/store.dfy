/** The database session as the core sees it: it registers new objects,
    flushes and commits. The model keeps the objects registered, in order,
    and how many flushes and commits were asked for, so that contracts can
    say which calls an operation made. */
module Store {

  class Session {
    var added: seq<object>
    var flushes: nat
    var commits: nat

    constructor ()
      ensures added == [] && flushes == 0 && commits == 0
    {
      added := [];
      flushes := 0;
      commits := 0;
    }

    /** `session.add(obj)`. */
    method Add(obj: object)
      modifies this
      ensures added == old(added) + [obj]
      ensures flushes == old(flushes) && commits == old(commits)
    {
      added := added + [obj];
    }

    /** `session.flush()`. */
    method Flush()
      modifies this
      ensures flushes == old(flushes) + 1
      ensures added == old(added) && commits == old(commits)
    {
      flushes := flushes + 1;
    }

    /** `session.commit()`. */
    method Commit()
      modifies this
      ensures commits == old(commits) + 1
      ensures added == old(added) && flushes == old(flushes)
    {
      commits := commits + 1;
    }
  }
}
