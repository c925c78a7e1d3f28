/** The line protocol between the real-time probe process and its parent: what the child prints,
    the parent reads back. */
module ChildProtocol {
  import opened Trace
  import opened Decimal

  const U16_MAX: nat := 0xFFFF
  const U32_MAX: nat := 0xFFFF_FFFF

  datatype Msg =
    | Report(stall: Stall)
    | KeepAlive(max: int)
    | Class(priority: nat)
    | Thread(tid: nat, cpu: Option<nat>)

  /** Every field fits the machine integer it is kept in. */
  predicate Fits(m: Msg) {
    match m
    case Report(s) => (s.cpu.Some? ==> s.cpu.value <= U16_MAX) && I64_MIN <= s.start <= I64_MAX && I64_MIN <= s.end <= I64_MAX
    case KeepAlive(max) => I64_MIN <= max <= I64_MAX
    case Class(priority) => priority <= U32_MAX
    case Thread(tid, cpu) => tid <= U32_MAX && (cpu.Some? ==> cpu.value <= U16_MAX)
  }

  // ---- The child's side -------------------------------------------------------------------------

  function Print(m: Msg): string {
    match m
    case Report(s) =>
      (if s.minor then "L" else "S") + Fields([(if s.cpu.Some? then s.cpu.value else 0), s.start, s.end])
    case KeepAlive(max) => "M" + Fields([max])
    case Class(priority) => "C" + Fields([priority])
    case Thread(tid, cpu) => "T" + Fields([tid, if cpu.Some? then cpu.value else -1])
  }

  function Fields(nums: seq<int>): string {
    if nums == [] then "" else " " + PrintInt(nums[0]) + Fields(nums[1..])
  }

  // ---- The parent's side ------------------------------------------------------------------------

  /** Cutting a text at every separator; there is always at least one piece. */
  function Split(s: string, sep: char): (words: seq<string>)
    ensures words != []
  {
    if s == "" then [""]
    else if s[0] == sep then [""] + Split(s[1..], sep)
    else
      var rest := Split(s[1..], sep);
      [[s[0]] + rest[0]] + rest[1..]
  }

  function Numbers(words: seq<string>): Option<seq<int>> {
    if words == [] then Some([])
    else
      var first := ParseInt(words[0]);
      var rest := Numbers(words[1..]);
      if first.None? || rest.None? then None else Some([first.value] + rest.value)
  }

  function Narrow(n: int, max: nat): Option<nat> {
    if 0 <= n <= max then Some(n) else None
  }

  /** The message a tag and its numbers make, if any. */
  function Message(tag: string, nums: seq<int>): Option<Msg> {
    if (tag == "S" || tag == "L") && |nums| == 3 then
      var cpu := Narrow(nums[0], U16_MAX);
      if cpu.None? then None else Some(Report(Stall(Kernel, cpu, nums[1], nums[2], tag == "L")))
    else if tag == "M" && |nums| == 1 then Some(KeepAlive(nums[0]))
    else if tag == "C" && |nums| == 1 then
      var priority := Narrow(nums[0], U32_MAX);
      if priority.None? then None else Some(Class(priority.value))
    else if tag == "T" && |nums| == 2 then
      var tid, cpu := Narrow(nums[0], U32_MAX), Narrow(nums[1], U16_MAX);
      if tid.None? || (nums[1] != -1 && cpu.None?) then None
      else Some(Thread(tid.value, if nums[1] == -1 then None else cpu))
    else None
  }

  function Parse(line: string): Option<Msg> {
    var words := Split(line, ' ');
    var nums := Numbers(words[1..]);
    if nums.None? then None else Message(words[0], nums.value)
  }

  /** Where the numbers read so far leave the whole line. */
  ghost predicate SoFar(all: seq<string>, i: nat, nums: seq<int>)
    requires i <= |all|
  {
    var rest := Numbers(all[i..]);
    Numbers(all) == if rest.None? then None else Some(nums + rest.value)
  }

  lemma SoFarStart(all: seq<string>)
    ensures SoFar(all, 0, [])
  {
    assert all[0..] == all;
    assert Numbers(all).Some? ==> [] + Numbers(all).value == Numbers(all).value;
  }

  lemma SoFarNext(all: seq<string>, i: nat, nums: seq<int>)
    requires i < |all| && SoFar(all, i, nums)
    ensures ParseInt(all[i]).None? ==> Numbers(all).None?
    ensures ParseInt(all[i]).Some? ==> SoFar(all, i + 1, nums + [ParseInt(all[i]).value])
  {
    var n, rest := ParseInt(all[i]), Numbers(all[i + 1..]);
    assert all[i..][1..] == all[i + 1..];
    if n.Some? && rest.Some? {
      assert nums + ([n.value] + rest.value) == nums + [n.value] + rest.value;
    }
  }

  method ParseChildLine(line: string) returns (msg: Option<Msg>)
    ensures msg == Parse(line)
  {
    var words := Split(line, ' ');
    var tag, rest := words[0], words[1..];
    var nums: seq<int> := [];
    SoFarStart(rest);
    for i := 0 to |rest|
      invariant SoFar(rest, i, nums)
    {
      var n := ParseInt(rest[i]);
      SoFarNext(rest, i, nums);
      if n.None? {
        return None;
      }
      nums := nums + [n.value];
    }
    assert rest[|rest|..] == [];
    msg := Message(tag, nums);
  }

  // ---- Round trip -------------------------------------------------------------------------------

  ghost predicate Free(s: string, sep: char) { sep !in s }

  lemma {:induction false} SplitFirst(word: string, rest: string, sep: char)
    requires Free(word, sep)
    ensures Split(word, sep) == [word]
    ensures Split(word + [sep] + rest, sep) == [word] + Split(rest, sep)
  {
    var all := word + [sep] + rest;
    if word == "" {
      assert all[1..] == rest;
    } else {
      assert word == [word[0]] + word[1..];
      SplitFirst(word[1..], rest, sep);
      assert all[1..] == word[1..] + [sep] + rest;
      assert all[0] != sep;
    }
  }

  function Words(nums: seq<int>): seq<string> {
    if nums == [] then [] else [PrintInt(nums[0])] + Words(nums[1..])
  }

  lemma {:induction false} SplitFields(word: string, nums: seq<int>)
    requires Free(word, ' ')
    ensures Split(word + Fields(nums), ' ') == [word] + Words(nums)
    decreases |nums|
  {
    if nums == [] {
      SplitFirst(word, "", ' ');
      assert word + Fields(nums) == word;
      assert Split(word + Fields(nums), ' ') == [word];
    } else {
      PrintedPlain(nums[0]);
      var rest := PrintInt(nums[0]) + Fields(nums[1..]);
      assert word + Fields(nums) == word + [' '] + rest;
      SplitFirst(word, rest, ' ');
      SplitFields(PrintInt(nums[0]), nums[1..]);
      assert Split(rest, ' ') == Words(nums);
    }
  }

  ghost predicate AllFit(nums: seq<int>) {
    forall i :: 0 <= i < |nums| ==> I64_MIN <= nums[i] <= I64_MAX
  }

  lemma {:induction false} NumbersNext(word: string, n: int, words: seq<string>, nums: seq<int>)
    requires ParseInt(word) == Some(n) && Numbers(words) == Some(nums)
    ensures Numbers([word] + words) == Some([n] + nums)
  {
    assert ([word] + words)[1..] == words;
  }

  lemma {:induction false} NumbersOfWords(nums: seq<int>)
    requires AllFit(nums)
    ensures Numbers(Words(nums)) == Some(nums)
  {
    if nums != [] {
      ParsePrinted(nums[0]);
      NumbersOfWords(nums[1..]);
      NumbersNext(PrintInt(nums[0]), nums[0], Words(nums[1..]), nums[1..]);
      assert nums == [nums[0]] + nums[1..];
    }
  }

  lemma ParseFields(tag: string, nums: seq<int>)
    requires Free(tag, ' ') && AllFit(nums)
    ensures Parse(tag + Fields(nums)) == Message(tag, nums)
  {
    SplitFields(tag, nums);
    NumbersOfWords(nums);
    assert ([tag] + Words(nums))[1..] == Words(nums);
  }

  /** What the parent makes of a message: the child only watches with real-time probes, and a stall
      of no particular processor would be booked on the first. */
  function AsHeard(m: Msg): Msg {
    match m
    case Report(s) => Report(s.(kind := Kernel, cpu := Some(if s.cpu.Some? then s.cpu.value else 0)))
    case _ => m
  }

  lemma ParsePrint(m: Msg)
    requires Fits(m)
    ensures Parse(Print(m)) == Some(AsHeard(m))
  {
    match m
    case Report(s) =>
      ParseFields(if s.minor then "L" else "S", [(if s.cpu.Some? then s.cpu.value else 0), s.start, s.end]);
    case KeepAlive(max) => ParseFields("M", [max]);
    case Class(priority) => ParseFields("C", [priority]);
    case Thread(tid, cpu) => ParseFields("T", [tid, if cpu.Some? then cpu.value else -1]);
  }

  /** A message comes back as itself exactly when it is not a stall, or a pinned real-time stall. */
  lemma RoundTripExactly(m: Msg)
    requires Fits(m)
    ensures Parse(Print(m)) == Some(m) <==> (m.Report? ==> m.stall.kind.Kernel? && m.stall.cpu.Some?)
  {
    ParsePrint(m);
  }

  lemma {:induction false} NumbersFit(words: seq<string>)
    requires Numbers(words).Some?
    ensures AllFit(Numbers(words).value) && |Numbers(words).value| == |words|
  {
    if words != [] {
      NumbersFit(words[1..]);
    }
  }

  /** Whatever is accepted, from whatever line, fits its fields, and says the same when repeated. */
  lemma AcceptedFits(line: string)
    requires Parse(line).Some?
    ensures Fits(Parse(line).value)
    ensures Parse(Print(Parse(line).value)) == Parse(line)
  {
    NumbersFit(Split(line, ' ')[1..]);
    ParsePrint(Parse(line).value);
  }

  // ---- The whole stream -------------------------------------------------------------------------

  function Stream(msgs: seq<Msg>): string {
    if msgs == [] then "" else Print(msgs[0]) + "\n" + Stream(msgs[1..])
  }

  /** Lines as a buffered reader hands them out: nothing after the last line end is not a line, and
      a carriage return before a line end goes with it. */
  function Lines(s: string): seq<string> {
    var pieces := Split(s, '\n');
    var init, last := pieces[..|pieces| - 1], pieces[|pieces| - 1];
    Chomped(init) + (if last == "" then [] else [last])
  }

  function Chomp(line: string): string {
    if line != "" && line[|line| - 1] == '\r' then line[..|line| - 1] else line
  }

  function Chomped(lines: seq<string>): seq<string> {
    if lines == [] then [] else [Chomp(lines[0])] + Chomped(lines[1..])
  }

  function Heard(lines: seq<string>): seq<Msg> {
    if lines == [] then []
    else
      var m := Parse(lines[0]);
      (if m.Some? then [m.value] else []) + Heard(lines[1..])
  }

  function AllAsHeard(msgs: seq<Msg>): seq<Msg> {
    if msgs == [] then [] else [AsHeard(msgs[0])] + AllAsHeard(msgs[1..])
  }

  function Printed(msgs: seq<Msg>): seq<string> {
    if msgs == [] then [] else [Print(msgs[0])] + Printed(msgs[1..])
  }

  predicate LineEnd(c: char) { c == '\n' || c == '\r' }

  lemma {:induction false} FieldsOneLine(nums: seq<int>, end: char)
    requires LineEnd(end)
    ensures Free(Fields(nums), end)
  {
    if nums != [] {
      PrintedPlain(nums[0]);
      FieldsOneLine(nums[1..], end);
    }
  }

  lemma PrintOneLine(m: Msg, end: char)
    requires LineEnd(end)
    ensures Free(Print(m), end)
  {
    match m
    case Report(s) => FieldsOneLine([(if s.cpu.Some? then s.cpu.value else 0), s.start, s.end], end);
    case KeepAlive(max) => FieldsOneLine([max], end);
    case Class(priority) => FieldsOneLine([priority], end);
    case Thread(tid, cpu) => FieldsOneLine([tid, if cpu.Some? then cpu.value else -1], end);
  }

  lemma {:induction false} SplitStream(msgs: seq<Msg>)
    ensures Split(Stream(msgs), '\n') == Printed(msgs) + [""]
  {
    if msgs != [] {
      PrintOneLine(msgs[0], '\n');
      assert Stream(msgs) == Print(msgs[0]) + ['\n'] + Stream(msgs[1..]);
      SplitFirst(Print(msgs[0]), Stream(msgs[1..]), '\n');
      SplitStream(msgs[1..]);
    }
  }

  lemma {:induction false} HeardPrinted(msgs: seq<Msg>)
    requires forall m :: m in msgs ==> Fits(m)
    ensures Chomped(Printed(msgs)) == Printed(msgs)
    ensures Heard(Printed(msgs)) == AllAsHeard(msgs)
  {
    if msgs != [] {
      assert msgs[0] in msgs;
      assert forall m :: m in msgs[1..] ==> m in msgs;
      ParsePrint(msgs[0]);
      PrintOneLine(msgs[0], '\r');
      HeardPrinted(msgs[1..]);
      assert Printed(msgs)[1..] == Printed(msgs[1..]);
    }
  }

  lemma LinesOf(s: string, lines: seq<string>)
    requires Split(s, '\n') == lines + [""] && Chomped(lines) == lines
    ensures Lines(s) == lines
  {
    assert (lines + [""])[..|lines|] == lines;
  }

  /** Over a whole run the parent hears every message the child wrote, in order, and nothing else. */
  lemma StreamRoundTrip(msgs: seq<Msg>)
    requires forall m :: m in msgs ==> Fits(m)
    ensures Heard(Lines(Stream(msgs))) == AllAsHeard(msgs)
  {
    SplitStream(msgs);
    HeardPrinted(msgs);
    LinesOf(Stream(msgs), Printed(msgs));
  }
}
