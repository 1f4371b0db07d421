/** The line loop shared by every generator: each template line either
    names a section, and is replaced by the lines generated for it, or is
    copied to the output unchanged. */
module Template {
  import opened Basics
  import opened Output

  /** What one template line turns into. */
  function LineOutput<E>(line: string, section: string -> Option<Emission<E>>): Emission<E> {
    match section(line)
    case None => Lines([line])
    case Some(block) => block
  }

  /** The whole loop: the outputs of the lines in order, stopping at the
      first section whose generation throws. */
  function Expand<E>(lines: seq<string>, section: string -> Option<Emission<E>>): Emission<E>
    decreases |lines|
  {
    if lines == [] then Lines([])
    else LineOutput(lines[0], section).Then(Expand(lines[1..], section))
  }

  /** The loop as the generators write it: one pass over the lines, writing
      to the output as it goes. */
  method ExpandTemplate<E>(lines: seq<string>, section: string -> Option<Emission<E>>)
    returns (e: Emission<E>)
    ensures e == Expand(lines, section)
  {
    var written: seq<string> := [];
    var i := 0;
    while i < |lines|
      invariant 0 <= i <= |lines|
      invariant Expand(lines, section) == Lines<E>(written).Then(Expand(lines[i..], section))
    {
      assert lines[i..][1..] == lines[i + 1..];
      var out := LineOutput(lines[i], section);
      ThenAssoc(Lines<E>(written), out, Expand(lines[i + 1..], section));
      if out.Failed() {
        return Emission(written + out.lines, out.failure);
      }
      written := written + out.lines;
      i := i + 1;
    }
    assert lines[i..] == [];
    ThenEmpty(Lines<E>(written));
    e := Lines(written);
  }

  /** A template with no section line is copied verbatim and in order. */
  lemma {:induction false} ExpandVerbatim<E>(lines: seq<string>, section: string -> Option<Emission<E>>)
    requires forall i :: 0 <= i < |lines| ==> section(lines[i]).None?
    ensures Expand(lines, section) == Lines(lines)
    decreases |lines|
  {
    if lines != [] {
      ExpandVerbatim(lines[1..], section);
      assert [lines[0]] + lines[1..] == lines;
    }
  }

  /** The loop distributes over concatenation of templates. */
  lemma {:induction false} ExpandAppend<E>(a: seq<string>, b: seq<string>, section: string -> Option<Emission<E>>)
    ensures Expand(a + b, section) == Expand(a, section).Then(Expand(b, section))
    decreases |a|
  {
    if a == [] {
      assert a + b == b;
      ThenEmpty(Expand(b, section));
    } else {
      assert (a + b)[1..] == a[1..] + b;
      ExpandAppend(a[1..], b, section);
      ThenAssoc(LineOutput(a[0], section), Expand(a[1..], section), Expand(b, section));
    }
  }

  /** Line `i` contributes its own output, between that of the lines
      before it and that of the lines after it. */
  lemma ExpandAt<E>(lines: seq<string>, i: nat, section: string -> Option<Emission<E>>)
    requires i < |lines|
    ensures Expand(lines, section)
         == Expand(lines[..i], section).Then(LineOutput(lines[i], section)).Then(Expand(lines[i + 1..], section))
  {
    assert lines == lines[..i] + lines[i..];
    ExpandAppend(lines[..i], lines[i..], section);
    assert lines[i..][1..] == lines[i + 1..];
    ThenAssoc(Expand(lines[..i], section), LineOutput(lines[i], section), Expand(lines[i + 1..], section));
  }

  /** The output records an exception exactly when some section line's
      generation throws. */
  lemma {:induction false} ExpandFails<E>(lines: seq<string>, section: string -> Option<Emission<E>>)
    ensures Expand(lines, section).Failed()
        <==> exists i :: 0 <= i < |lines| && LineOutput(lines[i], section).Failed()
    decreases |lines|
  {
    if lines != [] {
      ExpandFails(lines[1..], section);
      if exists i :: 0 <= i < |lines[1..]| && LineOutput(lines[1..][i], section).Failed() {
        var i :| 0 <= i < |lines[1..]| && LineOutput(lines[1..][i], section).Failed();
        assert LineOutput(lines[i + 1], section).Failed();
      }
      if exists i :: 0 <= i < |lines| && LineOutput(lines[i], section).Failed() {
        var i :| 0 <= i < |lines| && LineOutput(lines[i], section).Failed();
        if i > 0 {
          assert LineOutput(lines[1..][i - 1], section).Failed();
        }
      }
    }
  }
}
