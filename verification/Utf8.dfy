/** The table-driven UTF-8 automaton, and the grammar of section 4 of RFC 3629 it decides. */
module Utf8 {
  import opened Bytes

  const UTF8_ACCEPT := 0
  const UTF8_REJECT := 12

  /** A state is the offset of its row in the transition table. */
  type State = s: nat | s % 12 == 0 && s <= 96

  // -- The table, row by row ---------------------------------------------

  /** First part: byte classes, 32 bytes a row. */
  function ClassRow(r: nat): (row: seq<nat>)
    requires r < 8
  {
    if r < 4 then
      [0, 0, 0, 0, 0, 0, 0, 0, 0, 0, 0, 0, 0, 0, 0, 0, 0, 0, 0, 0, 0, 0, 0, 0, 0, 0, 0, 0, 0, 0, 0, 0]
    else if r == 4 then
      [1, 1, 1, 1, 1, 1, 1, 1, 1, 1, 1, 1, 1, 1, 1, 1, 9, 9, 9, 9, 9, 9, 9, 9, 9, 9, 9, 9, 9, 9, 9, 9]
    else if r == 5 then
      [7, 7, 7, 7, 7, 7, 7, 7, 7, 7, 7, 7, 7, 7, 7, 7, 7, 7, 7, 7, 7, 7, 7, 7, 7, 7, 7, 7, 7, 7, 7, 7]
    else if r == 6 then
      [8, 8, 2, 2, 2, 2, 2, 2, 2, 2, 2, 2, 2, 2, 2, 2, 2, 2, 2, 2, 2, 2, 2, 2, 2, 2, 2, 2, 2, 2, 2, 2]
    else
      [10, 3, 3, 3, 3, 3, 3, 3, 3, 3, 3, 3, 3, 4, 3, 3, 11, 6, 6, 6, 5, 8, 8, 8, 8, 8, 8, 8, 8, 8, 8, 8]
  }

  /** Second part: the next state by class, one row a state. */
  function TransitionRow(state: State): (row: seq<State>)
    ensures |row| == 12
  {
    match state / 12
    case 0 => [0, 12, 24, 36, 60, 96, 84, 12, 12, 12, 48, 72]
    case 1 => [12, 12, 12, 12, 12, 12, 12, 12, 12, 12, 12, 12]
    case 2 => [12, 0, 12, 12, 12, 12, 12, 0, 12, 0, 12, 12]
    case 3 => [12, 24, 12, 12, 12, 12, 12, 24, 12, 24, 12, 12]
    case 4 => [12, 12, 12, 12, 12, 12, 12, 24, 12, 12, 12, 12]
    case 5 => [12, 24, 12, 12, 12, 12, 12, 12, 12, 24, 12, 12]
    case 6 => [12, 12, 12, 12, 12, 12, 12, 36, 12, 36, 12, 12]
    case 7 => [12, 36, 12, 12, 12, 12, 12, 36, 12, 36, 12, 12]
    case _ => [12, 36, 12, 12, 12, 12, 12, 12, 12, 12, 12, 12]
  }

  /** What the rows of the first part say, as ranges. */
  function ClassOf(b: byte): (c: nat)
    ensures c < 12
  {
    if b < 0x80 then 0
    else if b < 0x90 then 1
    else if b < 0xA0 then 9
    else if b < 0xC0 then 7
    else if b < 0xC2 then 8
    else if b < 0xE0 then 2
    else if b == 0xE0 then 10
    else if b == 0xED then 4
    else if b < 0xF0 then 3
    else if b == 0xF0 then 11
    else if b < 0xF4 then 6
    else if b == 0xF4 then 5
    else 8
  }

  lemma ClassesOfRows0To3(b: byte)
    requires b < 0x80
    ensures |ClassRow(b / 32)| == 32 && ClassRow(b / 32)[b % 32] == ClassOf(b)
  {
  }

  lemma ClassesOfRow4(b: byte)
    requires 0x80 <= b < 0xA0
    ensures |ClassRow(4)| == 32 && ClassRow(4)[b - 0x80] == ClassOf(b)
  {
  }

  lemma ClassesOfRow5(b: byte)
    requires 0xA0 <= b < 0xC0
    ensures |ClassRow(5)| == 32 && ClassRow(5)[b - 0xA0] == ClassOf(b)
  {
  }

  lemma ClassesOfRow6(b: byte)
    requires 0xC0 <= b < 0xE0
    ensures |ClassRow(6)| == 32 && ClassRow(6)[b - 0xC0] == ClassOf(b)
  {
  }

  lemma ClassesOfRow7(b: byte)
    requires 0xE0 <= b
    ensures |ClassRow(7)| == 32 && ClassRow(7)[b - 0xE0] == ClassOf(b)
  {
  }

  lemma ClassTable(b: byte)
    ensures |ClassRow(b / 32)| == 32 && ClassRow(b / 32)[b % 32] == ClassOf(b)
  {
    hide ClassRow, ClassOf;
    if b < 0x80 {
      ClassesOfRows0To3(b);
    } else if b < 0xA0 {
      ClassesOfRow4(b);
    } else if b < 0xC0 {
      ClassesOfRow5(b);
    } else if b < 0xE0 {
      ClassesOfRow6(b);
    } else {
      ClassesOfRow7(b);
    }
  }

  /** Table entry of a byte: its class. */
  function ByteClass(b: byte): (c: nat)
    ensures c < 12
  {
    ClassTable(b);
    ClassRow(b / 32)[b % 32]
  }

  function NextState(state: State, b: byte): State {
    TransitionRow(state)[ByteClass(b)]
  }

  /** The code point after one more byte, on 32 bits. */
  function NextCode(state: State, codep: nat, b: byte): nat {
    if state != UTF8_ACCEPT then (b % 64 + codep * 64) % 0x1_0000_0000
    else b % (0xFF / Two(ByteClass(b)) + 1)
  }

  /** 2 to the power of a class; 0xff shifted right by a class is 0xff divided by it. */
  function Two(c: nat): nat
    requires c < 12
    ensures Two(c) > 0
  {
    [1, 2, 4, 8, 16, 32, 64, 128, 256, 512, 1024, 2048][c]
  }

  /** decode: one byte through the automaton. */
  method Decode(state: State, codep: nat, b: byte) returns (state': State, codep': nat)
    ensures state' == NextState(state, b)
    ensures codep' == NextCode(state, codep, b)
  {
    ClassTable(b);
    hide ClassRow, ClassOf, TransitionRow, Two;
    var kind := ClassRow(b / 32)[b % 32];
    if state != UTF8_ACCEPT {
      codep' := (b % 64 + codep * 64) % 0x1_0000_0000;
    } else {
      codep' := b % (0xFF / Two(kind) + 1);
    }
    state' := TransitionRow(state)[kind];
  }

  /** The automaton over a byte string. */
  function Run(state: State, s: seq<byte>): State
    decreases |s|
  {
    if s == [] then state else Run(NextState(state, s[0]), s[1..])
  }

  // -- The grammar -------------------------------------------------------

  predicate IsTail(b: byte) { 0x80 <= b <= 0xBF }

  predicate Utf8Two(s: seq<byte>) { |s| == 2 && 0xC2 <= s[0] <= 0xDF && IsTail(s[1]) }

  predicate Utf8Three(s: seq<byte>) {
    && |s| == 3 && IsTail(s[2])
    && (|| (s[0] == 0xE0 && 0xA0 <= s[1] <= 0xBF)
        || (0xE1 <= s[0] <= 0xEC && IsTail(s[1]))
        || (s[0] == 0xED && 0x80 <= s[1] <= 0x9F)
        || (0xEE <= s[0] <= 0xEF && IsTail(s[1])))
  }

  predicate Utf8Four(s: seq<byte>) {
    && |s| == 4 && IsTail(s[2]) && IsTail(s[3])
    && (|| (s[0] == 0xF0 && 0x90 <= s[1] <= 0xBF)
        || (0xF1 <= s[0] <= 0xF3 && IsTail(s[1]))
        || (s[0] == 0xF4 && 0x80 <= s[1] <= 0x8F))
  }

  /** UTF8-char of section 4 of RFC 3629. */
  predicate IsChar(s: seq<byte>) {
    (|s| == 1 && s[0] <= 0x7F) || Utf8Two(s) || Utf8Three(s) || Utf8Four(s)
  }

  /** UTF8-octets of section 4 of RFC 3629: any number of characters. */
  predicate WellFormed(s: seq<byte>)
    decreases |s|
  {
    s == [] || exists n | 1 <= n <= |s| && n <= 4 :: IsChar(s[..n]) && WellFormed(s[n..])
  }

  /** Some text starts with s. */
  ghost predicate Viable(s: seq<byte>) {
    exists t :: WellFormed(s + t)
  }

  // -- One character -----------------------------------------------------

  /** The transition table as ranges of the byte. */
  function Moves(state: State, b: byte): State {
    match state / 12
    case 0 =>
      if b < 0x80 then 0 else if b < 0xC2 then 12 else if b < 0xE0 then 24
      else if b == 0xE0 then 48 else if b == 0xED then 60 else if b < 0xF0 then 36
      else if b == 0xF0 then 72 else if b < 0xF4 then 84 else if b == 0xF4 then 96 else 12
    case 1 => 12
    case 2 => if IsTail(b) then 0 else 12
    case 3 => if IsTail(b) then 24 else 12
    case 4 => if 0xA0 <= b <= 0xBF then 24 else 12
    case 5 => if 0x80 <= b <= 0x9F then 24 else 12
    case 6 => if 0x90 <= b <= 0xBF then 36 else 12
    case 7 => if IsTail(b) then 36 else 12
    case _ => if 0x80 <= b <= 0x8F then 36 else 12
  }

  lemma TableMoves(state: State, b: byte)
    ensures NextState(state, b) == Moves(state, b)
  {
    ClassTable(b);
    hide ClassRow;
  }

  lemma {:induction false} RunConcat(state: State, a: seq<byte>, b: seq<byte>)
    ensures Run(state, a + b) == Run(Run(state, a), b)
    decreases |a|
  {
    hide NextState;
    if a == [] {
      assert a + b == b;
    } else {
      assert (a + b)[1..] == a[1..] + b;
      RunConcat(NextState(state, a[0]), a[1..], b);
    }
  }

  /** No way out of REJECT. */
  lemma {:induction false} RejectAbsorbs(s: seq<byte>)
    ensures Run(UTF8_REJECT, s) == UTF8_REJECT
  {
    if s != [] {
      TableMoves(UTF8_REJECT, s[0]);
      RejectAbsorbs(s[1..]);
    }
  }

  /** t takes the automaton from state to ACCEPT, for the first time at its end. */
  predicate Completes(state: State, t: seq<byte>)
    decreases |t|
  {
    && t != []
    && if |t| == 1 then Moves(state, t[0]) == UTF8_ACCEPT
       else Moves(state, t[0]) != UTF8_ACCEPT && Completes(Moves(state, t[0]), t[1..])
  }

  /** Number of bytes still missing in a state within a character. */
  function Missing(state: State): nat {
    match state / 12
    case 2 => 1
    case 3 => 2
    case 4 => 2
    case 5 => 2
    case _ => 3
  }

  lemma {:induction false} CompletesLength(state: State, t: seq<byte>)
    requires Completes(state, t)
    ensures state != UTF8_REJECT
    ensures state != UTF8_ACCEPT ==> |t| == Missing(state)
    ensures state == UTF8_ACCEPT ==> |t| <= 4
    decreases |t|
  {
    if |t| > 1 {
      CompletesLength(Moves(state, t[0]), t[1..]);
    }
  }

  /** The automaton's way through one character is the grammar's UTF8-char. */
  lemma CharCompletes(c: seq<byte>)
    ensures Completes(UTF8_ACCEPT, c) <==> IsChar(c)
  {
    if Completes(UTF8_ACCEPT, c) {
      CompletesLength(UTF8_ACCEPT, c);
      CompletedIsChar(c);
    }
    if IsChar(c) {
      CharIsCompleted(c);
    }
  }

  lemma CompletedIsChar(c: seq<byte>)
    requires Completes(UTF8_ACCEPT, c) && |c| <= 4
    ensures IsChar(c)
  {
    var a := Moves(0, c[0]);
    if |c| > 1 {
      assert Completes(a, c[1..]);
      if |c| > 2 {
        var b := Moves(a, c[1]);
        assert Completes(b, c[1..][1..]);
        if |c| > 3 {
          assert Completes(Moves(b, c[2]), c[1..][1..][1..]);
        }
      }
    }
  }

  lemma CharIsCompleted(c: seq<byte>)
    requires IsChar(c)
    ensures Completes(UTF8_ACCEPT, c)
  {
    var a := Moves(0, c[0]);
    if |c| > 1 {
      var b := Moves(a, c[1]);
      if |c| > 2 {
        if |c| > 3 {
          assert Completes(Moves(b, c[2]), c[1..][1..][1..]);
        }
        assert Completes(b, c[1..][1..]);
      }
      assert Completes(a, c[1..]);
    }
  }

  lemma {:induction false} RunCompletes(state: State, t: seq<byte>)
    requires Completes(state, t)
    ensures Run(state, t) == UTF8_ACCEPT
    decreases |t|
  {
    hide NextState, Moves;
    TableMoves(state, t[0]);
    if |t| > 1 {
      RunCompletes(Moves(state, t[0]), t[1..]);
    }
  }

  /** A run to ACCEPT reaches ACCEPT for the first time after some n bytes. */
  lemma {:induction false} FirstAccept(state: State, s: seq<byte>) returns (n: nat)
    requires s != [] && Run(state, s) == UTF8_ACCEPT
    ensures 1 <= n <= |s| && Completes(state, s[..n]) && Run(UTF8_ACCEPT, s[n..]) == UTF8_ACCEPT
    decreases |s|
  {
    hide NextState, Moves;
    TableMoves(state, s[0]);
    var next := Moves(state, s[0]);
    if next == UTF8_ACCEPT {
      n := 1;
    } else {
      n := FirstAccept(next, s[1..]);
      assert s[..n + 1][1..] == s[1..][..n];
      assert s[n + 1..] == s[1..][n..];
      n := n + 1;
    }
  }

  // -- The automaton decides the grammar ---------------------------------

  lemma {:induction false} AcceptedIsWellFormed(s: seq<byte>)
    requires Run(UTF8_ACCEPT, s) == UTF8_ACCEPT
    ensures WellFormed(s)
    decreases |s|
  {
    hide Run, IsChar, Completes;
    if s != [] {
      var n := FirstAccept(UTF8_ACCEPT, s);
      CharCompletes(s[..n]);
      CharLength(s[..n]);
      AcceptedIsWellFormed(s[n..]);
    }
  }

  lemma CharLength(c: seq<byte>)
    requires IsChar(c)
    ensures 1 <= |c| <= 4
  {
  }

  lemma {:induction false} WellFormedIsAccepted(s: seq<byte>)
    requires WellFormed(s)
    ensures Run(UTF8_ACCEPT, s) == UTF8_ACCEPT
    decreases |s|
  {
    hide IsChar, Completes, NextState;
    if s != [] {
      var n :| 1 <= n <= |s| && n <= 4 && IsChar(s[..n]) && WellFormed(s[n..]);
      hide WellFormed, Run;
      CharCompletes(s[..n]);
      RunCompletes(UTF8_ACCEPT, s[..n]);
      RunConcat(UTF8_ACCEPT, s[..n], s[n..]);
      assert s[..n] + s[n..] == s;
      WellFormedIsAccepted(s[n..]);
    }
  }

  /** Ending in ACCEPT is being well formed. */
  lemma AcceptsWellFormed(s: seq<byte>)
    ensures Run(UTF8_ACCEPT, s) == UTF8_ACCEPT <==> WellFormed(s)
  {
    hide Run, WellFormed;
    if Run(UTF8_ACCEPT, s) == UTF8_ACCEPT {
      AcceptedIsWellFormed(s);
    }
    if WellFormed(s) {
      WellFormedIsAccepted(s);
    }
  }

  /** Bytes that finish the character begun in a state. */
  function Completion(state: State): seq<byte> {
    match state / 12
    case 0 => []
    case 2 => [0x80]
    case 3 => [0x80, 0x80]
    case 4 => [0xA0, 0x80]
    case 5 => [0x80, 0x80]
    case 6 => [0x90, 0x80, 0x80]
    case _ => [0x80, 0x80, 0x80]
  }

  lemma CompletionCompletes(state: State)
    requires state != UTF8_REJECT && state != UTF8_ACCEPT
    ensures Completes(state, Completion(state))
  {
    var t := Completion(state);
    if |t| > 1 {
      var a := Moves(state, t[0]);
      if |t| > 2 {
        assert Completes(Moves(a, t[1]), t[1..][1..]);
      }
      assert Completes(a, t[1..]);
    }
  }

  /** Fail-fast: outside REJECT exactly as long as some text starts with the bytes seen. */
  lemma RejectsUnviable(s: seq<byte>)
    ensures Run(UTF8_ACCEPT, s) != UTF8_REJECT <==> Viable(s)
  {
    hide Run, WellFormed, Completes, Completion;
    var state := Run(UTF8_ACCEPT, s);
    if state != UTF8_REJECT {
      var t := if state == UTF8_ACCEPT then [] else Completion(state);
      if state == UTF8_ACCEPT {
        assert s + [] == s;
      } else {
        CompletionCompletes(state);
        RunCompletes(state, t);
        RunConcat(UTF8_ACCEPT, s, t);
      }
      AcceptsWellFormed(s + t);
      assert WellFormed(s + t);
    }
    if Viable(s) {
      var t :| WellFormed(s + t);
      AcceptsWellFormed(s + t);
      RunConcat(UTF8_ACCEPT, s, t);
      if state == UTF8_REJECT {
        RejectAbsorbs(t);
      }
    }
  }

  // -- Code points -------------------------------------------------------

  predicate IsScalar(v: nat) { v <= 0x10_FFFF && !(0xD800 <= v <= 0xDFFF) }

  /** Section 3 of RFC 3629. */
  function Encode(v: nat): (s: seq<byte>)
    requires IsScalar(v)
    ensures 1 <= |s| <= 4
  {
    if v < 0x80 then [v]
    else if v < 0x800 then [0xC0 + v / 0x40, 0x80 + v % 0x40]
    else if v < 0x1_0000 then [0xE0 + v / 0x1000, 0x80 + v / 0x40 % 0x40, 0x80 + v % 0x40]
    else [0xF0 + v / 0x4_0000, 0x80 + v / 0x1000 % 0x40, 0x80 + v / 0x40 % 0x40, 0x80 + v % 0x40]
  }

  /** State and code point after a byte string. */
  function RunCode(state: State, codep: nat, s: seq<byte>): (State, nat)
    decreases |s|
  {
    if s == [] then (state, codep)
    else RunCode(NextState(state, s[0]), NextCode(state, codep, s[0]), s[1..])
  }

  /** The bits of a first byte that belong to the code point. */
  function LeadBits(b: byte): nat {
    if b < 0x80 then b else if b < 0xE0 then b % 32 else if b < 0xF0 then b % 16 else b % 8
  }

  lemma LeadCode(codep: nat, b: byte)
    requires b < 0x80 || 0xC2 <= b <= 0xF4
    ensures NextCode(UTF8_ACCEPT, codep, b) == LeadBits(b)
  {
    ClassTable(b);
    hide ClassRow;
  }

  lemma TailCode(state: State, codep: nat, b: byte)
    requires state != UTF8_ACCEPT && codep < 0x40_0000
    ensures NextCode(state, codep, b) == b % 64 + codep * 64
  {
    hide ByteClass;
  }

  /** Six more bits from each further byte. */
  function Fold(codep: nat, t: seq<byte>): nat
    decreases |t|
  {
    if t == [] then codep else Fold(codep * 64 + t[0] % 64, t[1..])
  }

  /** The code point spelled by the bytes of one character. */
  function CodeOf(c: seq<byte>): nat
    requires c != []
  {
    Fold(LeadBits(c[0]), c[1..])
  }

  lemma {:induction false} RunCodeTail(state: State, codep: nat, t: seq<byte>)
    requires Completes(state, t) && state != UTF8_ACCEPT && |t| <= 3
    requires codep < if |t| == 3 then 0x100 else if |t| == 2 then 0x4000 else 0x10_0000
    ensures RunCode(state, codep, t) == (UTF8_ACCEPT, Fold(codep, t))
    decreases |t|
  {
    hide NextState, NextCode, Moves;
    TableMoves(state, t[0]);
    TailCode(state, codep, t[0]);
    if |t| > 1 {
      RunCodeTail(Moves(state, t[0]), codep * 64 + t[0] % 64, t[1..]);
    }
  }

  lemma CharCode(codep: nat, c: seq<byte>)
    requires IsChar(c)
    ensures RunCode(UTF8_ACCEPT, codep, c) == (UTF8_ACCEPT, CodeOf(c))
  {
    hide NextState, NextCode, Moves;
    CharCompletes(c);
    TableMoves(UTF8_ACCEPT, c[0]);
    LeadCode(codep, c[0]);
    if |c| > 1 {
      hide IsChar, Fold;
      RunCodeTail(Moves(UTF8_ACCEPT, c[0]), LeadBits(c[0]), c[1..]);
    }
  }

  lemma FoldOne(l: nat, a: byte)
    ensures Fold(l, [a]) == l * 64 + a % 64
  {
  }

  lemma FoldTwo(l: nat, a: byte, b: byte)
    ensures Fold(l, [a, b]) == (l * 64 + a % 64) * 64 + b % 64
  {
    assert [a, b][1..] == [b];
    FoldOne(l * 64 + a % 64, b);
  }

  lemma FoldThree(l: nat, a: byte, b: byte, c: byte)
    ensures Fold(l, [a, b, c]) == ((l * 64 + a % 64) * 64 + b % 64) * 64 + c % 64
  {
    assert [a, b, c][1..] == [b, c];
    FoldTwo(l * 64 + a % 64, b, c);
  }

  lemma FoldNone(l: nat)
    ensures Fold(l, []) == l
  {
  }

  lemma DivTwice(v: nat)
    ensures v / 0x1000 == v / 64 / 64
  {
  }

  /** The base-64 digits of a number. */
  lemma Digits(v: nat)
    ensures v == v / 64 * 64 + v % 64
    ensures v == (v / 0x1000 * 64 + v / 64 % 64) * 64 + v % 64
    ensures v == ((v / 0x4_0000 * 64 + v / 0x1000 % 64) * 64 + v / 64 % 64) * 64 + v % 64
  {
    var w := v / 64;
    DivTwice(v);
    assert v / 0x4_0000 == w / 0x1000;
    DivTwice(w);
  }

  /** A number from its base-64 digits. */
  lemma FromDigits(l: nat, a: nat, b: nat, c: nat)
    requires a < 64 && b < 64 && c < 64
    ensures var v := ((l * 64 + a) * 64 + b) * 64 + c;
      v / 0x4_0000 == l && v / 0x1000 == l * 64 + a && v / 0x1000 % 64 == a && v / 64 % 64 == b && v % 64 == c
  {
    var x := l * 64 + a;
    var y := x * 64 + b;
    var v := y * 64 + c;
    assert v / 64 == y && y / 64 == x && x / 64 == l;
    DivTwice(v);
    DivTwice(y);
    assert v / 0x4_0000 == y / 0x1000;
  }

  /** The lead bits of the first byte of a three- or four-byte character. */
  lemma LeadOf(l: nat)
    ensures l < 16 ==> LeadBits(0xE0 + l) == l
    ensures l < 8 ==> LeadBits(0xF0 + l) == l
  {
  }

  lemma EncodedTwo(v: nat)
    requires 0x80 <= v < 0x800
    ensures Utf8Two(Encode(v)) && CodeOf(Encode(v)) == v
  {
    hide Fold;
    var c := Encode(v);
    assert c[1..] == [c[1]];
    FoldOne(LeadBits(c[0]), c[1]);
    Digits(v);
  }

  lemma EncodedThree(v: nat)
    requires 0x800 <= v < 0x1_0000 && IsScalar(v)
    ensures Utf8Three(Encode(v)) && CodeOf(Encode(v)) == v
  {
    hide Fold;
    var c := Encode(v);
    assert c[1..] == [c[1], c[2]];
    FoldTwo(LeadBits(c[0]), c[1], c[2]);
    LeadOf(v / 0x1000);
    hide LeadBits;
    Digits(v);
  }

  lemma EncodedFour(v: nat)
    requires 0x1_0000 <= v && IsScalar(v)
    ensures Utf8Four(Encode(v)) && CodeOf(Encode(v)) == v
  {
    hide Fold, LeadBits;
    var c := Encode(v);
    assert c[1..] == [c[1], c[2], c[3]];
    FoldThree(LeadBits(c[0]), c[1], c[2], c[3]);
    LeadOf(v / 0x4_0000);
    Digits(v);
  }

  /** Encodings are characters that spell the encoded value. */
  lemma EncodedIsChar(v: nat)
    requires IsScalar(v)
    ensures IsChar(Encode(v)) && CodeOf(Encode(v)) == v
  {
    hide Fold, Encode, CodeOf, Utf8Two, Utf8Three, Utf8Four;
    if v < 0x80 {
      EncodedOne(v);
    } else if v < 0x800 {
      EncodedTwo(v);
    } else if v < 0x1_0000 {
      EncodedThree(v);
    } else {
      EncodedFour(v);
    }
  }

  lemma EncodedOne(v: nat)
    requires v < 0x80
    ensures Encode(v) == [v] && CodeOf(Encode(v)) == v
  {
    FoldNone(v);
  }

  lemma TwoIsEncoded(c: seq<byte>)
    requires Utf8Two(c)
    ensures IsScalar(CodeOf(c)) && Encode(CodeOf(c)) == c
  {
    hide Fold;
    assert c[1..] == [c[1]];
    FoldOne(LeadBits(c[0]), c[1]);
  }

  lemma ThreeInRange(c: seq<byte>)
    requires Utf8Three(c)
    ensures |c| == 3 && 0xE0 <= c[0] < 0xF0 && 0x80 <= c[1] < 0xC0 && 0x80 <= c[2] < 0xC0
    ensures (c[0] == 0xE0 ==> c[1] >= 0xA0) && (c[0] == 0xED ==> c[1] < 0xA0)
    ensures CodeOf(c) == ((c[0] as int - 0xE0) * 64 + (c[1] as int - 0x80)) * 64 + (c[2] - 0x80)
  {
    hide Fold, LeadBits;
    assert c[1..] == [c[1], c[2]];
    FoldTwo(LeadBits(c[0]), c[1], c[2]);
    LeadOf(c[0] - 0xE0);
  }

  lemma ThreeIsEncoded(c: seq<byte>)
    requires Utf8Three(c)
    ensures IsScalar(CodeOf(c)) && Encode(CodeOf(c)) == c
  {
    hide CodeOf, Utf8Three;
    ThreeInRange(c);
    FromDigits(0, c[0] - 0xE0, c[1] - 0x80, c[2] - 0x80);
  }

  lemma FourInRange(c: seq<byte>)
    requires Utf8Four(c)
    ensures |c| == 4 && 0xF0 <= c[0] <= 0xF4 && 0x80 <= c[1] < 0xC0 && 0x80 <= c[2] < 0xC0 && 0x80 <= c[3] < 0xC0
    ensures (c[0] == 0xF0 ==> c[1] >= 0x90) && (c[0] == 0xF4 ==> c[1] < 0x90)
    ensures CodeOf(c) ==
              (((c[0] as int - 0xF0) * 64 + (c[1] as int - 0x80)) * 64 + (c[2] as int - 0x80)) * 64 + (c[3] - 0x80)
  {
    hide Fold, LeadBits;
    assert c[1..] == [c[1], c[2], c[3]];
    FoldThree(LeadBits(c[0]), c[1], c[2], c[3]);
    LeadOf(c[0] - 0xF0);
  }

  lemma FourIsEncoded(c: seq<byte>)
    requires Utf8Four(c)
    ensures IsScalar(CodeOf(c)) && Encode(CodeOf(c)) == c
  {
    hide CodeOf, Utf8Four;
    FourInRange(c);
    FromDigits(c[0] - 0xF0, c[1] - 0x80, c[2] - 0x80, c[3] - 0x80);
  }

  /** Every character is the encoding of the scalar value it spells. */
  lemma CharIsEncoded(c: seq<byte>)
    requires IsChar(c)
    ensures IsScalar(CodeOf(c)) && Encode(CodeOf(c)) == c
  {
    hide Fold, Encode, CodeOf, IsScalar, Utf8Two, Utf8Three, Utf8Four;
    if |c| == 1 && c[0] <= 0x7F {
      OneIsEncoded(c);
    } else if Utf8Two(c) {
      TwoIsEncoded(c);
    } else if Utf8Three(c) {
      ThreeIsEncoded(c);
    } else {
      FourIsEncoded(c);
    }
  }

  lemma OneIsEncoded(c: seq<byte>)
    requires |c| == 1 && c[0] <= 0x7F
    ensures IsScalar(CodeOf(c)) && Encode(CodeOf(c)) == c
  {
    FoldNone(c[0]);
  }

  /** Decoding the encoding of a scalar value gives that value, whatever was decoded before. */
  lemma DecodesEncoding(v: nat, codep: nat)
    requires IsScalar(v)
    ensures RunCode(UTF8_ACCEPT, codep, Encode(v)) == (UTF8_ACCEPT, v)
  {
    hide Encode, IsChar, RunCode;
    EncodedIsChar(v);
    CharCode(codep, Encode(v));
  }

  lemma CharIsText(c: seq<byte>)
    requires IsChar(c)
    ensures WellFormed(c)
  {
    assert c[..|c|] == c && c[|c|..] == [];
    assert WellFormed(c[|c|..]);
  }

  /** The byte 255 starts no text. */
  lemma NoSuchByte()
    ensures WellFormed([]) && !WellFormed([255]) && !Viable([255])
  {
    hide WellFormed, Viable;
    RejectsUnviable([255]);
    AcceptsWellFormed([255]);
    AcceptsWellFormed([]);
    assert Run(UTF8_ACCEPT, [255]) == UTF8_REJECT by {
      var s: seq<byte> := [255];
      ClassTable(255);
      assert NextState(UTF8_ACCEPT, 255) == UTF8_REJECT;
      assert s[1..] == [];
    }
  }

  /** The first byte of U+00E9 alone is the start of a text, but no text. */
  lemma HalfCharacter()
    ensures WellFormed([195, 169]) && Viable([195]) && !WellFormed([195])
  {
    var whole: seq<byte>, half: seq<byte> := [195, 169], [195];
    assert IsChar(whole);
    CharIsText(whole);
    assert half + [169] == whole;
    assert half[..1] == half;
  }
}
