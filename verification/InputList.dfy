/** A window's linked list of input sources (Commander.cxx): whatever the sources are, reading
    commands consumes one flat sequence of lines from the front. */
module InputList {
  import opened Wrappers

  const NUL: char := 0 as char

  /** Where the C string that starts at i ends. */
  ghost predicate Terminated(b: string, i: nat) { exists j :: i <= j < |b| && b[j] == NUL }

  function StrLen(b: string, i: nat): (n: nat)
    requires Terminated(b, i)
    ensures i + n < |b| && b[i + n] == NUL && forall j :: i <= j < i + n ==> b[j] != NUL
    decreases |b| - i
  {
    if b[i] == NUL then 0 else 1 + StrLen(b, i + 1)
  }

  /** What a file still yields: fgets leaves one C string a call, and an empty one means the end. */
  function FileLines(file: seq<string>): seq<string> {
    if file == [] || file[0] == "" then [] else [file[0]] + FileLines(file[1..])
  }

  /** The lines of a file are the strings before the first empty one. */
  lemma {:induction false} FileEndsAt(file: seq<string>, k: nat)
    requires k <= |file| && "" !in file[..k] && (k < |file| ==> file[k] == "")
    ensures FileLines(file) == file[..k]
  {
    if k > 0 {
      assert file[0] in file[..k] && file[1..][..k - 1] == file[..k][1..];
      FileEndsAt(file[1..], k - 1);
    }
  }

  datatype Kind = Object(line: string) | File | Buffer

  class InputSource {
    var next: InputSource?
    const kind: Kind
    var file: seq<string>
    var buffer: string
    var nextLineAt: nat
    var lastValidData: nat

    /** Text at the read position ends in a NUL; a file is refilled only when its line is used up. */
    ghost predicate Valid()
      reads `file, `buffer, `nextLineAt, `lastValidData
    {
      && (nextLineAt < lastValidData ==> Terminated(buffer, nextLineAt))
      && (kind.File? ==> nextLineAt >= lastValidData && forall i :: 0 <= i < |file| ==> NUL !in file[i])
    }

    /** The lines this source has left. */
    ghost function Lines(): seq<string>
      requires Valid()
      reads `file, `buffer, `nextLineAt, `lastValidData
    {
      match kind
      case Object(line) => [line]
      case File => FileLines(file)
      case Buffer =>
        if nextLineAt < lastValidData && buffer[nextLineAt] != NUL
        then [buffer[nextLineAt..nextLineAt + StrLen(buffer, nextLineAt)]] else []
    }

    constructor OfObject(line: string)
      ensures Valid() && next == null && Lines() == [line]
    {
      next, kind := null, Object(line);
      file, buffer, nextLineAt, lastValidData := [], "", 0, 0;
    }

    constructor OfFile(strings: seq<string>)
      requires forall i :: 0 <= i < |strings| ==> NUL !in strings[i]
      ensures Valid() && next == null && Lines() == FileLines(strings)
      ensures forall k :: 0 <= k <= |strings| && "" !in strings[..k] && (k < |strings| ==> strings[k] == "") ==>
                Lines() == strings[..k]
    {
      next, kind := null, File;
      file, buffer, nextLineAt, lastValidData := strings, "", 0, 0;
      new;
      forall k | 0 <= k <= |strings| && "" !in strings[..k] && (k < |strings| ==> strings[k] == "")
        ensures FileLines(strings) == strings[..k]
      {
        FileEndsAt(strings, k);
      }
    }

    /** A caller's buffer, its size one more than the text: what stands before the first NUL is one
        line, and nothing after it is ever read. */
    constructor OfBuffer(text: string)
      ensures Valid() && next == null
      ensures NUL !in text ==> Lines() == if text == "" then [] else [text]
      ensures forall k :: 0 <= k < |text| && text[k] == NUL && NUL !in text[..k] ==>
                Lines() == if k == 0 then [] else [text[..k]]
    {
      next, kind := null, Buffer;
      file, buffer, nextLineAt, lastValidData := [], text + [NUL], 0, |text|;
      new;
      assert (text + [NUL])[|text|] == NUL;
      forall k | 0 <= k <= |text| && NUL !in text[..k] && buffer[k] == NUL ensures text != "" ==> StrLen(buffer, 0) == k {
        assert forall j :: 0 <= j < k ==> text[..k][j] == buffer[j];
        if text != "" { assert StrLen(buffer, 0) <= k; }
      }
      assert forall k :: 0 <= k <= |text| ==> buffer[0..k] == text[..k];
      assert text[..|text|] == text;
    }

    /** Get_Next_Line: the next line of a file or buffer, or nothing at its end. */
    method GetNextLine() returns (line: Option<string>)
      requires Valid() && !kind.Object?
      modifies this`file, this`buffer, this`nextLineAt, this`lastValidData
      ensures line.None? <==> old(Lines()) == []
      ensures line.Some? ==> Valid() && line.value == old(Lines())[0] && Lines() == old(Lines())[1..]
    {
      if nextLineAt >= lastValidData {
        if !kind.File? { return None; }
        Refill();
      }
      var len := LineLength(buffer, nextLineAt);
      if len == 0 { return None; }
      line := Some(buffer[nextLineAt..nextLineAt + len]);
      nextLineAt := nextLineAt + len;
      assert nextLineAt < lastValidData ==> Terminated(buffer, nextLineAt);
    }

    method Refill()
      requires Valid() && kind.File? && nextLineAt >= lastValidData
      modifies this`file, this`buffer, this`nextLineAt, this`lastValidData
      ensures Terminated(buffer, 0) && nextLineAt == 0 && lastValidData == StrLen(buffer, 0)
      ensures lastValidData == 0 ==> old(Lines()) == []
      ensures lastValidData > 0 ==> old(Lines()) == [buffer[..lastValidData]] + FileLines(file)
      ensures forall i :: 0 <= i < |file| ==> NUL !in file[i]
    {
      var got := "";
      if file != [] { got, file := file[0], file[1..]; }
      buffer := got + [NUL];
      nextLineAt, lastValidData := 0, |got|;
      assert buffer[|got|] == NUL;
      assert Terminated(buffer, 0);
    }

    static method LineLength(b: string, i: nat) returns (n: nat)
      requires Terminated(b, i)
      ensures n == StrLen(b, i)
    {
      n := 0;
      while b[i + n] != NUL
        invariant i + n <= i + StrLen(b, i)
        decreases |b| - n
      {
        n := n + 1;
      }
    }
  }

  function Concat(ss: seq<seq<string>>): seq<string> {
    if ss == [] then [] else ss[0] + Concat(ss[1..])
  }

  lemma {:induction false} ConcatSnoc(ss: seq<seq<string>>, s: seq<string>)
    ensures Concat(ss + [s]) == Concat(ss) + s
  {
    if ss == [] {
      assert [s][1..] == [];
    } else {
      assert (ss + [s])[1..] == ss[1..] + [s];
      ConcatSnoc(ss[1..], s);
    }
  }

  /** Following Next_Source from first visits nodes, which hold lines, and arrives at end. */
  ghost predicate Chain(first: InputSource?, nodes: seq<InputSource>, lines: seq<seq<string>>, end: InputSource?)
    reads nodes
    decreases |nodes|
  {
    if nodes == [] then first == end && lines == []
    else
      && lines != [] && first == nodes[0] && nodes[0] !in nodes[1..]
      && nodes[0].Valid() && nodes[0].Lines() == lines[0]
      && Chain(nodes[0].next, nodes[1..], lines[1..], end)
  }

  lemma {:induction false} ChainsMeet(first: InputSource?, ms: seq<InputSource>, xs: seq<seq<string>>,
                                      mid: InputSource?, ns: seq<InputSource>, ys: seq<seq<string>>, end: InputSource?)
    requires Chain(first, ms, xs, mid) && Chain(mid, ns, ys, end) && forall n :: n in ms ==> n !in ns
    ensures Chain(first, ms + ns, xs + ys, end)
    decreases |ms|
  {
    if ms == [] {
      assert ms + ns == ns && xs + ys == ys;
    } else {
      ChainsMeet(ms[0].next, ms[1..], xs[1..], mid, ns, ys, end);
      assert (ms + ns)[1..] == ms[1..] + ns && (xs + ys)[1..] == xs[1..] + ys;
    }
  }

  lemma {:induction false} ChainSplits(first: InputSource?, ns: seq<InputSource>, ls: seq<seq<string>>, end: InputSource?, k: nat)
    requires Chain(first, ns, ls, end) && k < |ns|
    ensures |ls| == |ns| && ns[k] !in ns[..k]
    ensures Chain(first, ns[..k], ls[..k], ns[k]) && Chain(ns[k], ns[k..], ls[k..], end)
    decreases k
  {
    Lengths(first, ns, ls, end);
    if k > 0 {
      ChainSplits(ns[0].next, ns[1..], ls[1..], end, k - 1);
      assert ns[1..][..k - 1] == ns[..k][1..] && ls[1..][..k - 1] == ls[..k][1..];
      assert ns[1..][k - 1..] == ns[k..] && ls[1..][k - 1..] == ls[k..];
    }
  }

  lemma {:induction false} Lengths(first: InputSource?, ns: seq<InputSource>, ls: seq<seq<string>>, end: InputSource?)
    requires Chain(first, ns, ls, end)
    ensures |ls| == |ns|
    decreases |ns|
  {
    if ns != [] { Lengths(ns[0].next, ns[1..], ls[1..], end); }
  }

  /** The chain up to its last node, which is left out of what is read here but for its lines. */
  ghost predicate EndsIn(first: InputSource?, ns: seq<InputSource>, ls: seq<seq<string>>, last: InputSource)
    reads ns, last
  {
    && |ns| == |ls| > 0 && last == ns[|ns| - 1] && last !in ns[..|ns| - 1]
    && Chain(first, ns[..|ns| - 1], ls[..|ns| - 1], last)
    && last.Valid() && last.Lines() == ls[|ns| - 1]
  }

  lemma {:induction false} LinkedBehind(first: InputSource?, ns: seq<InputSource>, ls: seq<seq<string>>,
                                        last: InputSource, inp: InputSource)
    requires EndsIn(first, ns, ls, last) && last.next == inp
    requires inp !in ns && inp.Valid() && inp.next == null
    ensures Chain(first, ns + [inp], ls + [inp.Lines()], null)
  {
    var n := |ns| - 1;
    var tail, held := [last, inp], [ls[n], inp.Lines()];
    assert tail[1..] == [inp] && held[1..] == [inp.Lines()];
    assert Chain(inp, [inp], [inp.Lines()], null);
    ChainsMeet(first, ns[..n], ls[..n], last, tail, held, null);
    assert ns[..n] + tail == ns + [inp] && ls[..n] + held == ls + [inp.Lines()];
  }

  class InputWindow {
    var input: InputSource?
    ghost var nodes: seq<InputSource>
    /** What each source of the chain still holds. */
    ghost var lines: seq<seq<string>>

    ghost predicate Valid()
      reads this, nodes
    {
      Chain(input, nodes, lines, null)
    }

    /** Every line still to be read, in order. */
    ghost function Flat(): seq<string>
      reads this
    {
      Concat(lines)
    }

    constructor ()
      ensures Valid() && Flat() == []
    {
      input, nodes, lines := null, [], [];
    }

    /** Append_Input_Source: after everything that waits already. */
    method AppendInputSource(inp: InputSource)
      requires Valid() && inp.Valid() && inp.next == null && inp !in nodes
      modifies this, nodes
      ensures Valid() && nodes == old(nodes) + [inp]
      ensures Flat() == old(Flat()) + old(inp.Lines())
    {
      ghost var added := inp.Lines();
      ConcatSnoc(lines, added);
      if input == null {
        input := inp;
      } else {
        LinkLast(inp);
      }
      nodes, lines := nodes + [inp], lines + [added];
    }

    method LinkLast(inp: InputSource)
      requires Valid() && input != null
      requires inp.Valid() && inp.next == null && inp !in nodes
      modifies nodes
      ensures Chain(input, nodes + [inp], lines + [old(inp.Lines())], null)
    {
      var previous := Last();
      previous.next := inp;
      LinkedBehind(input, nodes, lines, previous, inp);
    }

    method Last() returns (previous: InputSource)
      requires Valid() && input != null
      ensures EndsIn(input, nodes, lines, previous) && previous.next == null
    {
      previous := input;
      ghost var k := 0;
      while previous.next != null
        invariant 0 <= k < |nodes| && previous == nodes[k]
        decreases |nodes| - k
      {
        ChainSplits(input, nodes, lines, null, k);
        previous := previous.next;
        k := k + 1;
      }
      ChainSplits(input, nodes, lines, null, k);
    }

    /** Push_Input_Source: before everything that waits already. */
    method PushInputSource(inp: InputSource)
      requires Valid() && inp.Valid() && inp !in nodes
      modifies this, inp
      ensures Valid() && nodes == [inp] + old(nodes)
      ensures Flat() == old(inp.Lines()) + old(Flat())
    {
      inp.next := input;
      input := inp;
      nodes, lines := [inp] + nodes, [inp.Lines()] + lines;
      assert nodes[1..] == old(nodes) && lines[1..] == old(lines);
    }

    /** Pop_Input_Source. */
    method PopInputSource()
      requires input != null && nodes != [] && lines != [] && input == nodes[0]
      requires Chain(input.next, nodes[1..], lines[1..], null)
      modifies this
      ensures Valid() && nodes == old(nodes)[1..] && lines == old(lines)[1..]
    {
      input := input.next;
      nodes, lines := nodes[1..], lines[1..];
    }

    /** One look at the source in front: a line of text leaves by itself, a file or buffer stays
        until it has nothing more. */
    method ReadFront() returns (line: Option<string>)
      requires Valid() && input != null
      modifies this, input
      ensures Valid() && (nodes == old(nodes) || nodes == old(nodes)[1..])
      ensures line.None? <==> old(lines)[0] == []
      ensures line.None? ==> nodes == old(nodes)[1..] && lines == old(lines)[1..]
      ensures line.Some? ==> line.value == old(lines)[0][0] && Flat() == old(Flat())[1..]
    {
      if input.kind.Object? {
        line := Some(input.kind.line);
        PopInputSource();
        return;
      }
      line := input.GetNextLine();
      if line.Some? {
        lines := [lines[0][1..]] + lines[1..];
      } else {
        PopInputSource();
      }
    }

    /** Read_Command: the first line of all, from whichever source holds it; exhausted sources in
        front of it are dropped. */
    method ReadCommand() returns (line: Option<string>)
      requires Valid()
      modifies this, nodes
      ensures Valid() && exists k :: 0 <= k <= |old(nodes)| && nodes == old(nodes)[k..]
      ensures line.None? <==> old(Flat()) == []
      ensures line.Some? ==> line.value == old(Flat())[0] && Flat() == old(Flat())[1..]
      ensures line.None? ==> nodes == []
    {
      line := None;
      ghost var k := 0;
      while input != null
        invariant Valid() && Flat() == old(Flat())
        invariant 0 <= k <= |old(nodes)| && nodes == old(nodes)[k..]
        invariant line == None
        decreases |nodes|
      {
        ghost var chain := nodes;
        line := ReadFront();
        if nodes != chain {
          k := k + 1;
        }
        if line.Some? {
          return;
        }
      }
    }
  }
}
