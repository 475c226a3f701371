/** gms_output.cpp: the session buffer and its read cursor, shown to behave as a LineQueue. Server output
    is off and text needs no conversion to a client encoding. */
module OutputBuffer {
  import opened Bytes
  import opened Options
  import opened LineQueue

  // ---------------------------------------------------------------------------------------------
  // Buffer contents as lines
  // ---------------------------------------------------------------------------------------------

  /** Where the first line end lies, or the length if there is none. */
  function FirstNul(b: Text): (k: nat)
    ensures k <= |b| && NoNul(b[..k]) && (k < |b| ==> b[k] == 0)
  {
    if b == [] || b[0] == 0 then 0 else
      var k := 1 + FirstNul(b[1..]);
      assert b[..k] == [b[0]] + b[1..][..k - 1];
      k
  }

  lemma FirstNulUnique(b: Text, k: nat)
    requires k <= |b| && NoNul(b[..k]) && (k < |b| ==> b[k] == 0)
    ensures FirstNul(b) == k
  {
  }

  /** The complete lines, and what follows the last line end. */
  function Split(b: Text): (seq<Text>, Text)
    decreases |b|
  {
    var k := FirstNul(b);
    if k == |b| then ([], b) else
      var (lines, open) := Split(b[k + 1..]);
      ([b[..k]] + lines, open)
  }

  lemma {:induction false} SplitText(b: Text, t: Text)
    requires NoNul(t)
    ensures Split(b + t) == (Split(b).0, Split(b).1 + t)
    decreases |b|
  {
    hide FirstNul;
    hide Split;
    hide NoNul;
    var k := FirstNul(b);
    SplitUnfold(b);
    SplitUnfold(b + t);
    if k == |b| {
      assert b[..k] == b;
      NoNulMore(b, t);
      FirstNulUnique(b + t, |b + t|);
    } else {
      assert (b + t)[..k] == b[..k] && (b + t)[k + 1..] == b[k + 1..] + t;
      FirstNulUnique(b + t, k);
      SplitText(b[k + 1..], t);
    }
  }

  lemma NoNulMore(b: Text, t: Text)
    requires NoNul(b) && NoNul(t)
    ensures NoNul((b + t)[..|b + t|])
  {
    assert (b + t)[..|b + t|] == b + t;
  }

  lemma {:induction false} SplitNul(b: Text)
    ensures Split(b + [0]) == (Split(b).0 + [Split(b).1], [])
    decreases |b|
  {
    var k := FirstNul(b);
    assert (b + [0])[..k] == b[..k];
    FirstNulUnique(b + [0], k);
    if k == |b| {
      assert (b + [0])[k + 1..] == [] && b[..k] == b;
      SplitEmpty([]);
      assert [b] + [] == [b] == [] + [b];
    } else {
      assert (b + [0])[k + 1..] == b[k + 1..] + [0];
      SplitNul(b[k + 1..]);
      var (lines, open) := Split(b[k + 1..]);
      assert [b[..k]] + (lines + [open]) == [b[..k]] + lines + [open];
    }
  }

  /** Nothing is pending exactly if no byte is. */
  lemma SplitEmpty(b: Text)
    ensures b == [] <==> Split(b) == ([], [])
  {
  }

  lemma SplitUnfold(b: Text)
    ensures FirstNul(b) == |b| ==> Split(b) == ([], b)
    ensures FirstNul(b) < |b| ==>
              var rest := Split(b[FirstNul(b) + 1..]);
              Split(b) == ([b[..FirstNul(b)]] + rest.0, rest.1)
  {
    hide FirstNul;
  }

  /** Reading a line off a queue whose unread bytes are b. */
  lemma NextOfSplit(q: Queue, b: Text)
    requires q.On? && (q.lines, q.open) == Split(b)
    ensures b == [] ==> Next(q) == (q, [])
    ensures b != [] ==>
              var k := FirstNul(b);
              var rest := Split(if k < |b| then b[k + 1..] else []);
              Next(q) == (q.(reading := true, lines := rest.0, open := rest.1), [b[..k]])
  {
    hide Split;
    hide FirstNul;
    SplitUnfold(b);
    SplitNothing();
    var k := FirstNul(b);
    if k == |b| {
      assert b[..k] == b;
    } else {
      var line, rest := b[..k], Split(b[k + 1..]).0;
      assert q.lines == [line] + rest && ([line] + rest)[1..] == rest;
    }
  }

  /** The outcome of writing str behind the unread bytes b of a queue; a read before makes it start afresh. */
  ghost function Written(q: Queue, b: Text, str: Text): (Queue, Reply)
    requires q.On?
  {
    var kept, used := if q.reading then [] else b, if q.reading then 0 else q.used;
    if used + |str| > q.capacity then (Emptied(q), Overflow)
    else (On(q.capacity, used + |str|, false, Split(kept + str).0, Split(kept + str).1), Done)
  }

  /** Writing text, or a line end, does to the queue what it should. */
  lemma WrittenIsAdded(q: Queue, b: Text, t: Text)
    requires q.On? && (q.lines, q.open) == Split(b) && NoNul(t)
    ensures AddText(q, t) == Written(q, b, t) && AddNewLine(q) == Written(q, b, [0])
  {
    hide Split;
    SplitNothing();
    SplitText(if q.reading then [] else b, t);
    SplitNul(if q.reading then [] else b);
  }

  lemma SplitNothing()
    ensures Split([]) == ([], [])
  {
  }

  lemma NextOfOff()
    ensures Next(Off) == (Off, [])
  {
  }

  class OutputContext {
    var buffer: array?<Byte>
    var size: int
    var len: int
    var get: int

    /** Two spare bytes behind the capacity hold a line end and a terminator; used text is terminated; the
        cursor may stand just behind the terminator of an unfinished line. */
    ghost predicate Valid()
      reads this, buffer
    {
      if buffer == null then size == 0 && len == 0 && get == 0
      else
        && 0 <= len <= size && buffer.Length == size + 2
        && 0 <= get && (if len == 0 then get == 0 else get <= len + 1 && buffer[len] == 0)
    }

    /** Bytes not read yet. */
    function Unread(): Text
      requires Valid()
      reads this, buffer
    {
      if buffer == null || get > len then [] else buffer[get..len]
    }

    ghost function View(): Queue
      requires Valid()
      reads this, buffer
    {
      if buffer == null then Off else On(size, len, 0 < get, Split(Unread()).0, Split(Unread()).1)
    }

    /** init_session_vars. */
    constructor ()
      ensures Valid() && View() == Off
    {
      buffer, size, len, get := null, 0, 0, 0;
    }

    /** add_str; without room the buffer is emptied and an error raised. */
    method AddStr(str: Text) returns (r: Reply)
      requires Valid() && buffer != null
      modifies this`len, this`get, buffer
      ensures Valid() && (View(), r) == Written(old(View()), old(Unread()), str)
    {
      hide Split;
      SplitNothing();
      ghost var kept := if get > 0 then [] else Unread();
      if get > 0 {
        get := 0;
        len := 0;
      }
      if len + |str| > size {
        len := 0;
        get := 0;
        return Overflow;
      }
      Append(str);
      assert Unread() == kept + str;
      return Done;
    }

    /** Copies str behind the used bytes and terminates it. */
    method Append(str: Text)
      requires Valid() && buffer != null && get == 0 && len + |str| <= size
      modifies this`len, buffer
      ensures Valid() && len == old(len) + |str| && buffer[..len] == old(buffer[..len]) + str
    {
      ghost var kept, used := buffer[..len], len;
      for i := 0 to |str|
        invariant len == used
        invariant forall k :: 0 <= k < |kept| ==> buffer[k] == kept[k]
        invariant forall k :: 0 <= k < i ==> str[k] == buffer[len + k]
      {
        buffer[len + i] := str[i];
      }
      len := len + |str|;
      buffer[len] := 0;
      assert buffer[..used] == kept && buffer[used..len] == str;
      assert buffer[..len] == buffer[..used] + buffer[used..len];
    }

    /** gms_output_put. */
    method Put(t: Text) returns (r: Reply)
      requires Valid() && NoNul(t)
      modifies this`len, this`get, buffer
      ensures Valid() && (View(), r) == Step(old(View()), Cmd.Put(t))
    {
      hide Step;
      StepWrite(View(), t);
      if buffer == null { return Done; }
      WrittenIsAdded(View(), Unread(), t);
      r := AddStr(t);
    }

    /** add_newline with server output off. */
    method AddNewline() returns (r: Reply)
      requires Valid() && buffer != null
      modifies this`len, this`get, buffer
      ensures Valid() && (View(), r) == AddNewLine(old(View()))
    {
      WrittenIsAdded(View(), Unread(), []);
      r := AddStr([0]);
    }

    /** gms_output_put_line. */
    method PutLine(t: Text) returns (r: Reply)
      requires Valid() && NoNul(t)
      modifies this`len, this`get, buffer
      ensures Valid() && (View(), r) == Step(old(View()), Cmd.PutLine(t))
    {
      hide Step;
      StepWrite(View(), t);
      if buffer == null { return Done; }
      r := Put(t);
      if r == Overflow { return; }
      r := AddNewline();
    }

    /** gms_output_new_line. */
    method NewLine() returns (r: Reply)
      requires Valid()
      modifies this`len, this`get, buffer
      ensures Valid() && (View(), r) == Step(old(View()), Cmd.NewLine)
    {
      if buffer == null { return Done; }
      r := AddNewline();
    }

    /** The text from the cursor to the next terminator. */
    method CString() returns (line: Text)
      requires Valid() && get < len
      ensures line == Unread()[..FirstNul(Unread())]
    {
      var p := get;
      while buffer[p] != 0
        invariant get <= p <= len && NoNul(buffer[get..p])
        decreases len - p
      {
        assert buffer[get..p + 1] == buffer[get..p] + [buffer[p]];
        p := p + 1;
      }
      line := buffer[get..p];
      assert Unread()[..p - get] == line;
      assert p < len ==> Unread()[p - get] == 0;
      FirstNulUnique(Unread(), p - get);
    }

    /** gms_output_next. */
    method NextLine() returns (line: seq<Text>)
      requires Valid()
      modifies this`get
      ensures Valid() && (View(), line) == Next(old(View()))
    {
      hide Split;
      hide FirstNul;
      hide Next;
      ghost var unread := Unread();
      NextOfOff();
      if buffer != null { NextOfSplit(View(), unread); }
      if get < len {
        var text := CString();
        get := get + |text| + 1;
        assert Unread() == if |text| < |unread| then unread[|text| + 1..] else [];
        line := [text];
      } else {
        line := [];
      }
    }

    /** gms_output_get_line. */
    method GetLine() returns (r: Reply)
      requires Valid()
      modifies this`get
      ensures Valid() && (View(), r) == Step(old(View()), Cmd.GetLine)
    {
      var line := NextLine();
      r := Lines(line);
    }

    /** gms_output_get_lines. */
    method GetLines(max: int) returns (r: Reply)
      requires Valid()
      modifies this`get
      ensures Valid() && (View(), r) == Step(old(View()), Cmd.GetLines(max))
    {
      hide NextN;
      hide Next;
      hide View;
      var lines: seq<Text> := [];
      var n := 0;
      ghost var start := View();
      assert [] + NextN(start, max).1 == NextN(start, max).1;
      assert Step(start, Cmd.GetLines(max)) == (NextN(start, max).0, Lines(NextN(start, max).1));
      while n < max
        invariant 0 <= n && (n <= max || n == 0) && Valid()
        invariant NextN(start, max) == (NextN(View(), max - n).0, lines + NextN(View(), max - n).1)
        decreases max - n
      {
        NextNUnfold(View(), max - n);
        ghost var rest := NextN(Next(View()).0, max - n - 1).1;
        var line := NextLine();
        if line == [] {
          assert lines + [] == lines;
          return Lines(lines);
        }
        assert lines + (line + rest) == lines + line + rest;
        lines := lines + line;
        n := n + 1;
      }
      NextNUnfold(View(), max - n);
      assert lines + [] == lines;
      r := Lines(lines);
    }

    /** repalloc: keeps what fits into both sizes, in particular the first used bytes. */
    static method Repalloc(b: array<Byte>, size: nat, ghost used: nat) returns (moved: array<Byte>)
      requires used <= b.Length && used <= size
      ensures fresh(moved) && moved.Length == size && moved[..used] == b[..used]
    {
      moved := new Byte[size];
      var keep := if b.Length < size then b.Length else size;
      for i := 0 to keep
        invariant forall k :: 0 <= k < i ==> moved[k] == b[k]
      {
        moved[i] := b[i];
      }
    }

    /** gms_output_enable_internal. */
    method EnableInternal(n: nat)
      requires Valid()
      modifies this
      ensures Valid() && View() == Resize(old(View()), n)
      ensures buffer == old(buffer) || fresh(buffer)
    {
      if buffer == null {
        buffer := new Byte[n + 2];
        size, len, get := n, 0, 0;
        SplitEmpty([]);
      } else if n > len {
        hide Split;
        ghost var unread, text := Unread(), buffer[..len + 1];
        assert get <= len ==> unread == text[get..len];
        assert buffer[len] == text[len];
        var moved := Repalloc(buffer, n + 2, len + 1);
        assert moved[len] == text[len];
        buffer := moved;
        size := n;
        assert get <= len ==> Unread() == text[get..len];
      }
    }

    /** gms_output_enable; no argument means the largest buffer. */
    method Enable(n: Option<int>)
      requires Valid()
      modifies this
      ensures Valid() && (View(), Done) == Step(old(View()), Cmd.Enable(n))
      ensures buffer == old(buffer) || fresh(buffer)
    {
      var size := BUFSIZE_MAX;
      if n.Some? {
        size := n.value;
        if size > BUFSIZE_MAX {
          size := BUFSIZE_MAX;
        } else if size < BUFSIZE_MIN {
          size := BUFSIZE_MIN;
        }
      }
      EnableInternal(size);
    }

    /** gms_output_enable_default. */
    method EnableDefault()
      requires Valid()
      modifies this
      ensures Valid() && (View(), Done) == Step(old(View()), Cmd.EnableDefault)
      ensures buffer == old(buffer) || fresh(buffer)
    {
      EnableInternal(BUFSIZE_DEFAULT);
    }

    /** gms_output_disable. */
    method Disable()
      requires Valid()
      modifies this
      ensures Valid() && (View(), Done) == Step(old(View()), Cmd.Disable)
      ensures buffer == null
    {
      buffer := null;
      size, len, get := 0, 0, 0;
    }
  }

  /** A whole session: every run of commands refines the queue, and its books balance at the end. */
  method Session(cmds: seq<Cmd>) returns (replies: seq<Reply>, context: OutputContext)
    requires forall i :: 0 <= i < |cmds| ==> TextOk(cmds[i])
    ensures context.Valid() && (context.View(), replies) == Run(Off, cmds) && context.View().Valid()
  {
    hide Step;
    hide Run;
    context := new OutputContext();
    replies := [];
    NothingRun(Off);
    for i := 0 to |cmds|
      invariant context.Valid() && fresh(context) && (context.buffer != null ==> fresh(context.buffer))
      invariant (context.View(), replies) == Run(Off, cmds[..i])
    {
      var r := Done;
      match cmds[i] {
        case Put(t) => r := context.Put(t);
        case PutLine(t) => r := context.PutLine(t);
        case NewLine => r := context.NewLine();
        case GetLine => r := context.GetLine();
        case GetLines(max) => r := context.GetLines(max);
        case Enable(n) => context.Enable(n);
        case EnableDefault => context.EnableDefault();
        case Disable => context.Disable();
      }
      RunSnoc(Off, cmds[..i], cmds[i]);
      assert cmds[..i + 1] == cmds[..i] + [cmds[i]];
      replies := replies + [r];
    }
    assert cmds[..|cmds|] == cmds;
    RunValid(Off, cmds);
  }
}
