/** The newline handling of LCD6x20.message: the text is cut at every
    newline, as Python's str.split('\n') does. */
module LcdText {
  import opened Transport
  import opened Seqs

  const NEWLINE: Byte := 0x0A

  /** The number of newlines in `t`. */
  function Newlines(t: seq<Byte>): nat
  {
    if t == [] then 0 else (if t[0] == NEWLINE then 1 else 0) + Newlines(t[1..])
  }

  /** The segments between newlines, in order; a text with k newlines has
      k + 1 segments, some of them possibly empty. */
  function Split(t: seq<Byte>): (lines: seq<seq<Byte>>)
    ensures |lines| == Newlines(t) + 1
    decreases |t|
  {
    if t == [] then [[]]
    else
      var rest := Split(t[1..]);
      if t[0] == NEWLINE then [[]] + rest
      else [[t[0]] + rest[0]] + rest[1..]
  }

  /** No segment holds a newline. */
  lemma {:induction false} SplitClean(t: seq<Byte>)
    ensures forall i :: 0 <= i < |Split(t)| ==> NEWLINE !in Split(t)[i]
    decreases |t|
  {
    if t != [] {
      SplitClean(t[1..]);
      var rest := Split(t[1..]);
      var lines := Split(t);
      if t[0] != NEWLINE {
        assert t[0] in t[..1];
        forall i | 0 <= i < |lines|
          ensures NEWLINE !in lines[i]
        {
          if i == 0 {
            assert lines[0] == [t[0]] + rest[0];
          } else {
            assert lines[i] == rest[i];
          }
        }
      } else {
        forall i | 0 <= i < |lines|
          ensures NEWLINE !in lines[i]
        {
          if i > 0 {
            assert lines[i] == rest[i - 1];
          }
        }
      }
    }
  }

  /** The segments put back together with a newline between neighbours. */
  function Join(lines: seq<seq<Byte>>): seq<Byte>
    requires |lines| >= 1
    decreases |lines|
  {
    if |lines| == 1 then lines[0] else lines[0] + [NEWLINE] + Join(lines[1..])
  }

  /** Splitting loses nothing: joining the segments gives the text back. */
  lemma {:induction false} JoinSplit(t: seq<Byte>)
    ensures Join(Split(t)) == t
    decreases |t|
  {
    if t != [] {
      var rest := Split(t[1..]);
      JoinSplit(t[1..]);
      if t[0] == NEWLINE {
        assert Split(t) == [[]] + rest;
        assert Split(t)[1..] == rest;
      } else {
        var lines := Split(t);
        assert lines == [[t[0]] + rest[0]] + rest[1..];
        if |rest| == 1 {
          assert Join(lines) == [t[0]] + rest[0];
        } else {
          assert lines[1..] == rest[1..];
          assert Join(rest) == rest[0] + [NEWLINE] + Join(rest[1..]);
        }
      }
    }
  }

  /** And the other way round: segments free of newlines come back from
      splitting their join. */
  lemma {:induction false} SplitJoin(lines: seq<seq<Byte>>)
    requires |lines| >= 1
    requires forall i :: 0 <= i < |lines| ==> NEWLINE !in lines[i]
    ensures Split(Join(lines)) == lines
    decreases |lines|
  {
    if |lines| == 1 {
      SplitPlain(lines[0]);
    } else {
      SplitJoin(lines[1..]);
      SplitAtNewline(lines[0], Join(lines[1..]));
      SplitPlain(lines[0]);
      assert lines == [lines[0]] + lines[1..];
    }
  }

  /** A text without newlines is a single segment. */
  lemma {:induction false} SplitPlain(t: seq<Byte>)
    requires NEWLINE !in t
    ensures Split(t) == [t]
    decreases |t|
  {
    if t != [] {
      SplitPlain(t[1..]);
      assert t == [t[0]] + t[1..];
    }
  }

  /** Splitting a text that starts with one more byte. */
  lemma SplitCons(x: Byte, t: seq<Byte>)
    ensures Split([x] + t) == if x == NEWLINE then [[]] + Split(t) else [[x] + Split(t)[0]] + Split(t)[1..]
  {
    assert ([x] + t)[1..] == t;
  }

  /** Prepending to the first segment commutes with appending more segments. */
  lemma ConsFirst(x: Byte, ra: seq<seq<Byte>>, rb: seq<seq<Byte>>)
    requires |ra| >= 1
    ensures [[x] + (ra + rb)[0]] + (ra + rb)[1..] == ([[x] + ra[0]] + ra[1..]) + rb
  {
    assert (ra + rb)[1..] == ra[1..] + rb;
  }

  /** A newline cuts the segments of both sides apart. */
  lemma {:induction false} SplitAtNewline(a: seq<Byte>, b: seq<Byte>)
    ensures Split(a + [NEWLINE] + b) == Split(a) + Split(b)
    decreases |a|
  {
    if a == [] {
      SplitCons(NEWLINE, b);
      assert a + [NEWLINE] + b == [NEWLINE] + b;
    } else {
      var x, u := a[0], a[1..];
      assert a == [x] + u;
      assert a + [NEWLINE] + b == [x] + (u + [NEWLINE] + b);
      SplitAtNewline(u, b);
      SplitCons(x, u + [NEWLINE] + b);
      SplitCons(x, u);
      if x != NEWLINE {
        ConsFirst(x, Split(u), Split(b));
      } else {
        Assoc([[]], Split(u), Split(b));
      }
    }
  }
}
