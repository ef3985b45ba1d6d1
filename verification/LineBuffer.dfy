/** wasm/libtee_builtin_wrapper.c, lines 894-920: `printf_out` collects characters into lines of the
    system log. */
module LineBuffer {
  import opened Bytes

  const NEWLINE := 10
  const CAPACITY := 128

  /** The byte a character code is stored as. */
  function ToByte(c: int): byte {
    (c % 256) as byte
  }

  function ToBytes(codes: seq<int>): (bytes: seq<byte>)
    ensures |bytes| == |codes|
  {
    seq(|codes|, i requires 0 <= i < |codes| => ToByte(codes[i]))
  }

  // ----- Lines -----

  /** The lines handed over so far, and what waits in the buffer. */
  datatype Lines = Lines(done: seq<seq<byte>>, pending: seq<byte>)

  function Put(lines: Lines, c: int): Lines {
    if c == NEWLINE then Lines(lines.done + [lines.pending], [])
    else if |lines.pending| >= CAPACITY - 2 then Lines(lines.done + [lines.pending + [ToByte(c)]], [])
    else Lines(lines.done, lines.pending + [ToByte(c)])
  }

  function PutAll(lines: Lines, codes: seq<int>): Lines {
    if codes == [] then lines else Put(PutAll(lines, codes[..|codes| - 1]), codes[|codes| - 1])
  }

  function Flat(lines: seq<seq<byte>>): seq<byte> {
    if lines == [] then [] else Flat(lines[..|lines| - 1]) + lines[|lines| - 1]
  }

  /** Everything in the lines, in order. */
  function All(lines: Lines): seq<byte> {
    Flat(lines.done) + lines.pending
  }

  function WithoutNewlines(codes: seq<int>): seq<int> {
    if codes == [] then []
    else
      var last := codes[|codes| - 1];
      WithoutNewlines(codes[..|codes| - 1]) + if last == NEWLINE then [] else [last]
  }

  predicate Bounded(lines: Lines) {
    && |lines.pending| <= CAPACITY - 2
    && forall i | 0 <= i < |lines.done| :: |lines.done[i]| <= CAPACITY - 1
  }

  lemma FlatSnoc(lines: seq<seq<byte>>, line: seq<byte>)
    ensures Flat(lines + [line]) == Flat(lines) + line
  {
    assert (lines + [line])[..|lines|] == lines;
  }

  /** Every character but the newlines comes out once and in order, in lines of at most 127. */
  lemma {:induction false} Conserved(lines: Lines, codes: seq<int>)
    requires Bounded(lines)
    ensures All(PutAll(lines, codes)) == All(lines) + ToBytes(WithoutNewlines(codes))
    ensures Bounded(PutAll(lines, codes)) && lines.done <= PutAll(lines, codes).done
  {
    if codes == [] {
      assert ToBytes(WithoutNewlines(codes)) == [];
      assert All(lines) + [] == All(lines);
    } else {
      var front, last := codes[..|codes| - 1], codes[|codes| - 1];
      Conserved(lines, front);
      OneConserved(PutAll(lines, front), last);
      var kept := WithoutNewlines(front);
      if last != NEWLINE {
        assert ToBytes(kept + [last]) == ToBytes(kept) + [ToByte(last)];
        assert All(lines) + (ToBytes(kept) + [ToByte(last)]) == (All(lines) + ToBytes(kept)) + [ToByte(last)];
      }
    }
  }

  lemma OneConserved(lines: Lines, c: int)
    requires Bounded(lines)
    ensures All(Put(lines, c)) == if c == NEWLINE then All(lines) else All(lines) + [ToByte(c)]
    ensures Bounded(Put(lines, c)) && lines.done <= Put(lines, c).done
  {
    if c == NEWLINE {
      FlatSnoc(lines.done, lines.pending);
    } else if |lines.pending| >= CAPACITY - 2 {
      FlatSnoc(lines.done, lines.pending + [ToByte(c)]);
      assert Flat(lines.done) + (lines.pending + [ToByte(c)]) == All(lines) + [ToByte(c)];
    } else {
      assert Flat(lines.done) + (lines.pending + [ToByte(c)]) == All(lines) + [ToByte(c)];
    }
  }

  // ----- Where lines break -----

  /** A text without newlines cut into lines of 127 characters, and what is left over. */
  function Cut(text: seq<byte>): Lines
    decreases |text|
  {
    if |text| < CAPACITY - 1 then Lines([], text)
    else
      var rest := Cut(text[CAPACITY - 1..]);
      Lines([text[..CAPACITY - 1]] + rest.done, rest.pending)
  }

  lemma {:induction false} CutLength(text: seq<byte>)
    ensures |Cut(text).done| == |text| / 127 && |Cut(text).pending| == |text| % 127
    ensures forall i | 0 <= i < |Cut(text).done| :: Cut(text).done[i] == text[127 * i..127 * (i + 1)]
    decreases |text|
  {
    if |text| >= 127 {
      CutLength(text[127..]);
      forall i | 0 < i < |Cut(text).done|
        ensures Cut(text).done[i] == text[127 * i..127 * (i + 1)]
      {
        assert Cut(text).done[i] == Cut(text[127..]).done[i - 1];
      }
    }
  }

  lemma {:induction false} CutSnoc(text: seq<byte>, b: byte)
    ensures Cut(text + [b])
         == if |Cut(text).pending| < 126 then Cut(text).(pending := Cut(text).pending + [b])
            else Lines(Cut(text).done + [Cut(text).pending + [b]], [])
    decreases |text|
  {
    var more := text + [b];
    if |text| >= 127 {
      CutSnoc(text[127..], b);
      assert more[..127] == text[..127];
      assert more[127..] == text[127..] + [b];
      var rest := Cut(text[127..]);
      assert [text[..127]] + (rest.done + [rest.pending + [b]]) == ([text[..127]] + rest.done) + [rest.pending + [b]];
    } else if |text| == 126 {
      assert more[..127] == more && more[127..] == [];
    }
  }

  /** From an empty buffer, a text without newlines breaks after every 127 characters and nowhere else;
      a newline then ends the line at hand, even an empty one. */
  lemma {:induction false} BreaksAt127(done: seq<seq<byte>>, codes: seq<int>)
    requires NEWLINE !in codes
    ensures PutAll(Lines(done, []), codes) == Lines(done + Cut(ToBytes(codes)).done, Cut(ToBytes(codes)).pending)
    ensures PutAll(Lines(done, []), codes + [NEWLINE])
         == Lines(done + Cut(ToBytes(codes)).done + [Cut(ToBytes(codes)).pending], [])
  {
    if codes == [] {
      assert Cut(ToBytes(codes)) == Lines([], []);
      assert done + [] == done;
    } else {
      var front, last := codes[..|codes| - 1], codes[|codes| - 1];
      BreaksAt127(done, front);
      assert ToBytes(codes) == ToBytes(front) + [ToByte(last)];
      CutSnoc(ToBytes(front), ToByte(last));
      var cut := Cut(ToBytes(front));
      assert done + (cut.done + [cut.pending + [ToByte(last)]]) == done + cut.done + [cut.pending + [ToByte(last)]];
    }
    assert (codes + [NEWLINE])[..|codes|] == codes;
  }

  // ----- Any text -----

  function FirstNewline(codes: seq<int>): (k: nat)
    requires NEWLINE in codes
    ensures k < |codes| && codes[k] == NEWLINE && NEWLINE !in codes[..k]
  {
    if codes[0] == NEWLINE then 0 else
      assert codes == [codes[0]] + codes[1..];
      var k := FirstNewline(codes[1..]) + 1;
      assert codes[..k] == [codes[0]] + codes[1..][..k - 1];
      k
  }

  /** The lines of a text, found without the buffer: each stretch between newlines is cut on its own. */
  function LinesOf(codes: seq<int>): Lines
    decreases |codes|
  {
    if NEWLINE !in codes then Cut(ToBytes(codes))
    else
      var k := FirstNewline(codes);
      var first, rest := Cut(ToBytes(codes[..k])), LinesOf(codes[k + 1..]);
      Lines(first.done + [first.pending] + rest.done, rest.pending)
  }

  lemma {:induction false} PutAllConcat(lines: Lines, a: seq<int>, b: seq<int>)
    ensures PutAll(lines, a + b) == PutAll(PutAll(lines, a), b)
  {
    if b == [] {
      assert a + b == a;
    } else {
      PutAllConcat(lines, a, b[..|b| - 1]);
      assert (a + b)[..|a + b| - 1] == a + b[..|b| - 1];
    }
  }

  /** Character by character, the buffer makes exactly these lines. */
  lemma {:induction false} LinesAreCut(done: seq<seq<byte>>, codes: seq<int>)
    ensures PutAll(Lines(done, []), codes) == Lines(done + LinesOf(codes).done, LinesOf(codes).pending)
    decreases |codes|
  {
    hide PutAll, Cut;
    if NEWLINE !in codes {
      BreaksAt127(done, codes);
    } else {
      var k := FirstNewline(codes);
      var first, rest := Cut(ToBytes(codes[..k])), codes[k + 1..];
      BreaksAt127(done, codes[..k]);
      var ended := done + first.done + [first.pending];
      assert codes == (codes[..k] + [NEWLINE]) + rest;
      PutAllConcat(Lines(done, []), codes[..k] + [NEWLINE], rest);
      LinesAreCut(ended, rest);
      assert ended + LinesOf(rest).done == done + (first.done + [first.pending] + LinesOf(rest).done);
    }
  }

  // ----- What the log shows -----

  /** A line up to its first NUL, which is what the log prints of it. */
  function UpToNul(line: seq<byte>): (text: seq<byte>) {
    if line == [] || line[0] == 0 then [] else [line[0]] + UpToNul(line[1..])
  }

  function LogOf(lines: seq<seq<byte>>): (log: seq<seq<byte>>)
    ensures |log| == |lines|
  {
    seq(|lines|, i requires 0 <= i < |lines| => UpToNul(lines[i]))
  }

  function NonNul(text: seq<byte>): (kept: seq<byte>)
    ensures kept == [] <==> forall i | 0 <= i < |text| :: text[i] == 0
  {
    if text == [] then []
    else
      assert forall i | 0 < i < |text| :: text[i] == text[1..][i - 1];
      (if text[0] == 0 then [] else [text[0]]) + NonNul(text[1..])
  }

  /** Nothing but NULs follows a NUL. */
  predicate NulsLast(line: seq<byte>) {
    forall i, j | 0 <= i < j < |line| :: line[i] == 0 ==> line[j] == 0
  }

  predicate AllNulsLast(lines: seq<seq<byte>>) {
    forall i | 0 <= i < |lines| :: NulsLast(lines[i])
  }

  lemma {:induction false} NonNulConcat(a: seq<byte>, b: seq<byte>)
    ensures NonNul(a + b) == NonNul(a) + NonNul(b)
  {
    if a == [] {
      assert a + b == b;
    } else {
      assert (a + b)[1..] == a[1..] + b;
      NonNulConcat(a[1..], b);
    }
  }

  lemma {:induction false} ShownInFull(line: seq<byte>)
    ensures |UpToNul(line)| <= |NonNul(line)|
    ensures UpToNul(line) == NonNul(line) <==> NulsLast(line)
  {
    if line != [] {
      var rest := line[1..];
      ShownInFull(rest);
      assert forall i | 0 < i < |line| :: line[i] == rest[i - 1];
      assert forall i | 0 <= i < |rest| :: rest[i] == line[i + 1];
      if line[0] != 0 {
        assert NulsLast(line) <==> NulsLast(rest);
        assert UpToNul(line)[1..] == UpToNul(rest) && NonNul(line)[1..] == NonNul(rest);
      } else {
        assert NulsLast(line) <==> NonNul(rest) == [];
      }
    }
  }

  lemma {:induction false} LinesShownInFull(lines: seq<seq<byte>>)
    ensures |Flat(LogOf(lines))| <= |NonNul(Flat(lines))|
    ensures Flat(LogOf(lines)) == NonNul(Flat(lines)) <==> AllNulsLast(lines)
  {
    if lines != [] {
      var front, last := lines[..|lines| - 1], lines[|lines| - 1];
      LinesShownInFull(front);
      ShownInFull(last);
      NonNulConcat(Flat(front), last);
      assert LogOf(lines)[..|lines| - 1] == LogOf(front);
      SplitEqual(Flat(LogOf(front)), UpToNul(last), NonNul(Flat(front)), NonNul(last));
      assert forall i | 0 <= i < |front| :: lines[i] == front[i];
      assert (forall i | 0 <= i < |lines| :: NulsLast(lines[i]))
        <==> (forall i | 0 <= i < |front| :: NulsLast(front[i])) && NulsLast(last);
    }
  }

  lemma SplitEqual(a: seq<byte>, b: seq<byte>, a': seq<byte>, b': seq<byte>)
    requires |a| <= |a'| && |b| <= |b'|
    ensures a + b == a' + b' <==> a == a' && b == b'
  {
    if a + b == a' + b' {
      assert |a| == |a'| && |b| == |b'|;
      assert a == (a + b)[..|a|] && a' == (a' + b')[..|a|];
      assert b == (a + b)[|a|..] && b' == (a' + b')[|a|..];
    }
  }

  /** No code is followed by one that prints something once it has printed a NUL. */
  predicate NulCodesLast(codes: seq<int>) {
    forall i, j | 0 <= i < j < |codes| :: codes[i] % 256 == 0 ==> codes[j] % 256 == 0
  }

  /** In a stretch without newlines, nothing but NULs follows a NUL within each 127 characters, nor in
      what is left if the stretch is ended by a newline. */
  predicate StretchEnds(codes: seq<int>, ended: bool)
    decreases |codes|
  {
    if |codes| < CAPACITY - 1 then ended ==> NulCodesLast(codes)
    else NulCodesLast(codes[..CAPACITY - 1]) && StretchEnds(codes[CAPACITY - 1..], ended)
  }

  /** The same in every stretch of a text. */
  predicate NulsEndLines(codes: seq<int>)
    decreases |codes|
  {
    if NEWLINE !in codes then StretchEnds(codes, false)
    else
      var k := FirstNewline(codes);
      StretchEnds(codes[..k], true) && NulsEndLines(codes[k + 1..])
  }

  lemma NulsOfPart(codes: seq<int>)
    ensures NulsLast(ToBytes(codes)) == NulCodesLast(codes)
  {
    assert forall i | 0 <= i < |codes| :: ToBytes(codes)[i] == 0 <==> codes[i] % 256 == 0;
  }

  lemma {:induction false} NulsOfStretch(codes: seq<int>, ended: bool)
    ensures var cut := Cut(ToBytes(codes));
      StretchEnds(codes, ended)
      <==> AllNulsLast(cut.done) && (ended ==> NulsLast(cut.pending))
    decreases |codes|
  {
    hide NulsLast, NulCodesLast;
    if |codes| < CAPACITY - 1 {
      NulsOfPart(codes);
    } else {
      var line, rest := codes[..CAPACITY - 1], codes[CAPACITY - 1..];
      NulsOfPart(line);
      NulsOfStretch(rest, ended);
      var text := ToBytes(codes);
      assert text[..CAPACITY - 1] == ToBytes(line) && text[CAPACITY - 1..] == ToBytes(rest);
      AllOfParts([], ToBytes(line), Cut(ToBytes(rest)).done);
      assert [] + [ToBytes(line)] + Cut(ToBytes(rest)).done == Cut(text).done;
    }
  }

  lemma {:induction false} NulsOfLines(codes: seq<int>)
    ensures NulsEndLines(codes) <==> AllNulsLast(LinesOf(codes).done)
    decreases |codes|
  {
    hide Cut, AllNulsLast, StretchEnds;
    if NEWLINE !in codes {
      NulsOfStretch(codes, false);
      assert LinesOf(codes) == Cut(ToBytes(codes)) && NulsEndLines(codes) == StretchEnds(codes, false);
    } else {
      var k := FirstNewline(codes);
      var stretch, rest := codes[..k], codes[k + 1..];
      NulsOfStretch(stretch, true);
      NulsOfLines(rest);
      var first := Cut(ToBytes(stretch));
      assert NulsEndLines(codes) == (StretchEnds(stretch, true) && NulsEndLines(rest));
      assert LinesOf(codes).done == first.done + [first.pending] + LinesOf(rest).done;
      AllOfParts(first.done, first.pending, LinesOf(rest).done);
    }
  }

  lemma AllOfParts(a: seq<seq<byte>>, line: seq<byte>, b: seq<seq<byte>>)
    ensures AllNulsLast(a + [line] + b) <==> AllNulsLast(a) && NulsLast(line) && AllNulsLast(b)
  {
    hide NulsLast;
    var all := a + [line] + b;
    assert forall i | 0 <= i < |a| :: all[i] == a[i];
    assert all[|a|] == line;
    assert forall i | 0 <= i < |b| :: b[i] == all[|a| + 1 + i];
  }

  /** Whatever is printed, the log and the buffer show every character that is neither a newline nor a
      NUL once and in order, exactly when nothing but NULs follows a NUL on a line of the output. */
  lemma LogConserves(codes: seq<int>)
    ensures var lines := PutAll(Lines([], []), codes);
      Flat(LogOf(lines.done)) + NonNul(lines.pending) == NonNul(ToBytes(WithoutNewlines(codes)))
      <==> NulsEndLines(codes)
  {
    var lines := PutAll(Lines([], []), codes);
    Conserved(Lines([], []), codes);
    LinesAreCut([], codes);
    assert lines == Lines(LinesOf(codes).done, LinesOf(codes).pending);
    NulsOfLines(codes);
    assert All(Lines([], [])) == [];
    assert All(lines) == ToBytes(WithoutNewlines(codes));
    hide PutAll, NonNul, NulsLast, ToBytes, WithoutNewlines, LogOf, LinesOf, NulsEndLines;
    NonNulConcat(Flat(lines.done), lines.pending);
    LinesShownInFull(lines.done);
    SplitEqual(Flat(LogOf(lines.done)), NonNul(lines.pending), NonNul(Flat(lines.done)), NonNul(lines.pending));
  }

  predicate NoNul(codes: seq<int>) {
    forall i | 0 <= i < |codes| :: codes[i] % 256 != 0
  }

  lemma NoNulInPart(codes: seq<int>, i: nat, j: nat)
    requires NoNul(codes) && i <= j <= |codes|
    ensures NoNul(codes[i..j])
  {
    assert forall k | 0 <= k < j - i :: codes[i..j][k] == codes[i + k];
  }

  /** In particular nothing is lost of a text that prints no NUL. */
  lemma {:induction false} NoNulNoLoss(codes: seq<int>)
    requires NoNul(codes)
    ensures NulsEndLines(codes)
    decreases |codes|
  {
    hide StretchEnds, NoNul;
    if NEWLINE in codes {
      var k := FirstNewline(codes);
      NoNulInPart(codes, 0, k);
      NoNulInPart(codes, k + 1, |codes|);
      assert codes[0..k] == codes[..k] && codes[k + 1..|codes|] == codes[k + 1..];
      NoNulInStretch(codes[..k], true);
      NoNulNoLoss(codes[k + 1..]);
    } else {
      NoNulInStretch(codes, false);
    }
  }

  lemma {:induction false} NoNulInStretch(codes: seq<int>, ended: bool)
    requires NoNul(codes)
    ensures StretchEnds(codes, ended)
    decreases |codes|
  {
    if |codes| >= CAPACITY - 1 {
      NoNulInPart(codes, 0, CAPACITY - 1);
      NoNulInPart(codes, CAPACITY - 1, |codes|);
      assert codes[0..CAPACITY - 1] == codes[..CAPACITY - 1];
      assert codes[CAPACITY - 1..|codes|] == codes[CAPACITY - 1..];
      NoNulNulsLast(codes[..CAPACITY - 1]);
      NoNulInStretch(codes[CAPACITY - 1..], ended);
    } else {
      NoNulNulsLast(codes);
    }
  }

  lemma NoNulNulsLast(codes: seq<int>)
    requires NoNul(codes)
    ensures NulCodesLast(codes)
  {
  }

  /** A NUL hides the rest of its line: of NUL, A, newline the log shows nothing. */
  lemma NulHidesRest()
    ensures var lines := PutAll(Lines([], []), [0, 65, NEWLINE]);
      lines == Lines([[0, 65]], []) && LogOf(lines.done) == [[]]
  {
    var start := Lines([], []);
    assert [0, 65, NEWLINE][..2] == [0, 65] && [0, 65][..1] == [0] && [0][..0] == [];
    assert PutAll(start, [0]) == Lines([], [0]);
    assert PutAll(start, [0, 65]) == Lines([], [0, 65]);
  }

  /** `print_buf`, `print_buf_size` and the log they feed. */
  class PrintBuffer {
    const chars: array<byte>
    var size: nat
    var log: seq<seq<byte>>
    ghost var handed: seq<seq<byte>>

    ghost predicate Valid()
      reads this, chars
    {
      && chars.Length == CAPACITY && size <= CAPACITY - 2
      && log == LogOf(handed)
    }

    ghost function Contents(): Lines
      requires Valid()
      reads this, chars
    {
      Lines(handed, chars[..size])
    }

    constructor ()
      ensures Valid() && fresh(chars) && Contents() == Lines([], [])
    {
      chars := new byte[CAPACITY](_ => 0);
      size := 0;
      log := [];
      handed := [];
    }

    /** What `%s` prints of the buffer: the characters before the first NUL. */
    method UntilNul(ghost line: seq<byte>) returns (text: seq<byte>)
      requires chars.Length == CAPACITY && |line| < CAPACITY && chars[..|line|] == line && chars[|line|] == 0
      ensures text == UpToNul(line)
    {
      text := [];
      var i := 0;
      UpToNulAt(line, 0);
      while chars[i] != 0
        invariant 0 <= i <= |line|
        invariant UpToNul(line) == text + UpToNul(line[i..])
        decreases |line| - i
      {
        assert chars[..|line|][i] == line[i];
        UpToNulAt(line, i);
        text := text + [chars[i]];
        i := i + 1;
      }
      assert i < |line| ==> chars[..|line|][i] == line[i];
      UpToNulAt(line, i);
    }

    static lemma UpToNulAt(line: seq<byte>, i: nat)
      requires i <= |line|
      ensures line[0..] == line
      ensures i < |line| && line[i] != 0 ==> UpToNul(line[i..]) == [line[i]] + UpToNul(line[i + 1..])
      ensures i == |line| || line[i] == 0 ==> UpToNul(line[i..]) == []
    {
      if i < |line| {
        assert line[i..][1..] == line[i + 1..];
      }
    }

    /** `syslog(LOG_INFO, "%s\n", print_buf)` */
    method Syslog(ghost line: seq<byte>)
      requires chars.Length == CAPACITY && |line| < CAPACITY && chars[..|line|] == line && chars[|line|] == 0
      modifies this`log, this`handed
      ensures log == old(log) + [UpToNul(line)] && handed == old(handed) + [line]
    {
      var text := UntilNul(line);
      log := log + [text];
      handed := handed + [line];
    }

    /** `printf_out` */
    method PrintfOut(c: int) returns (r: int)
      requires Valid()
      modifies this, chars
      ensures Valid() && Contents() == Put(old(Contents()), c) && r == c
    {
      ghost var line := chars[..size];
      if c == NEWLINE {
        chars[size] := 0;
        Syslog(line);
        size := 0;
      } else if size >= CAPACITY - 2 {
        line := line + [ToByte(c)];
        chars[size] := ToByte(c);
        size := size + 1;
        chars[size] := 0;
        Syslog(line);
        size := 0;
      } else {
        chars[size] := ToByte(c);
        size := size + 1;
      }
      r := c;
    }
  }
}
