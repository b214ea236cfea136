/** What the two page table dumpers share: printing lines, and picking lines out of a dump. */
module Dump {

  datatype Option<+T> = None | Some(value: T)

  /** Standard output, as the sequence of lines printed so far. */
  class Output<T> {
    var lines: seq<T>

    constructor ()
      ensures lines == []
    {
      lines := [];
    }

    method Print(l: T)
      modifies this
      ensures lines == old(lines) + [l]
    {
      lines := lines + [l];
    }
  }

  lemma Regroup<T>(x: seq<T>, a: seq<T>, b: seq<T>)
    ensures (x + a) + b == x + (a + b)
    ensures x + [] == x
  {
  }

  /** The lines with property `p`, in the order of the dump. */
  function Select<T>(lines: seq<T>, p: T -> bool): seq<T> {
    if |lines| == 0 then [] else
      Select(lines[..|lines| - 1], p) + (if p(lines[|lines| - 1]) then [lines[|lines| - 1]] else [])
  }

  lemma {:induction false} SelectConcat<T>(a: seq<T>, b: seq<T>, p: T -> bool)
    ensures Select(a + b, p) == Select(a, p) + Select(b, p)
  {
    if |b| == 0 {
      assert a + b == a;
    } else {
      var init := b[..|b| - 1];
      assert (a + b)[..|a + b| - 1] == a + init;
      SelectConcat(a, init, p);
    }
  }

  lemma SelectOne<T>(l: T, p: T -> bool)
    ensures Select([l], p) == if p(l) then [l] else []
    ensures Select([], p) == []
  {
    assert [l][..0] == [];
  }

  lemma {:induction false} SelectMember<T>(lines: seq<T>, p: T -> bool, l: T)
    ensures l in Select(lines, p) <==> l in lines && p(l)
  {
    if |lines| > 0 {
      var n := |lines| - 1;
      SelectMember(lines[..n], p, l);
      assert lines == lines[..n] + [lines[n]];
    }
  }
}
