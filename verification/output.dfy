/** What a generator writes: the lines handed to StreamWriter.WriteLine, in
    order, and the exception (if any) that stopped it. The writer sits in a
    `using` block, so the lines written before an exception are flushed to
    the output file when the exception unwinds. */
module Output {
  import opened Basics

  datatype Emission<+E> = Emission(lines: seq<string>, failure: Option<E>) {

    predicate Failed() {
      failure.Some?
    }

    /** Sequential composition: `next` runs only when this part did not throw. */
    function Then(next: Emission<E>): Emission<E> {
      if Failed() then this else Emission(lines + next.lines, next.failure)
    }
  }

  /** Lines written without an exception. */
  function Lines<E>(lines: seq<string>): Emission<E> {
    Emission(lines, None)
  }

  /** An exception thrown before anything was written. */
  function Throw<E>(e: E): Emission<E> {
    Emission([], Some(e))
  }

  lemma ThenAssoc<E>(a: Emission<E>, b: Emission<E>, c: Emission<E>)
    ensures a.Then(b).Then(c) == a.Then(b.Then(c))
  {
    if !a.Failed() && !b.Failed() {
      assert a.lines + b.lines + c.lines == a.lines + (b.lines + c.lines);
    }
  }

  lemma ThenEmpty<E>(a: Emission<E>)
    ensures Lines<E>([]).Then(a) == a
    ensures !a.Failed() ==> a.Then(Lines<E>([])) == a
  {
    assert [] + a.lines == a.lines;
    assert a.lines + [] == a.lines;
  }
}
