/** The text of the game's messages (tictactoe_ipc.c) and of the player's input (tictactoe_player.c). */
module Messages {
  const NUL: char := '\0'

  predicate IsDigit(c: char) { '0' <= c <= '9' }

  predicate AllDigits(s: string) { forall i :: 0 <= i < |s| ==> IsDigit(s[i]) }

  function DigitOf(c: char): nat
    requires IsDigit(c)
  {
    c as int - '0' as int
  }

  function ToDigit(d: nat): (c: char)
    requires d < 10
    ensures IsDigit(c) && DigitOf(c) == d
  {
    ('0' as int + d) as char
  }

  /** The number a string of digits denotes. */
  function Value(s: string): (v: nat)
    requires AllDigits(s)
  {
    if s == [] then 0 else 10 * Value(s[..|s| - 1]) + DigitOf(s[|s| - 1])
  }

  // ---------------------------------------------------------------- "%d" and atoi

  function Decimal(n: nat): (s: string)
    ensures |s| > 0 && AllDigits(s)
  {
    if n < 10 then [ToDigit(n)] else Decimal(n / 10) + [ToDigit(n % 10)]
  }

  /** sprintf "%d". */
  function Print(n: int): (s: string)
    ensures |s| > 0
  {
    if n < 0 then "-" + Decimal(-n) else Decimal(n)
  }

  predicate IsSpace(c: char) { c == ' ' || 9 <= c as int <= 13 }

  function AtoiDigits(s: string, acc: nat): nat {
    if s != [] && IsDigit(s[0]) then AtoiDigits(s[1..], 10 * acc + DigitOf(s[0])) else acc
  }

  /** atoi: white space, an optional sign, then digits up to the first other character. */
  function Atoi(s: string): int {
    if s == [] then 0
    else if IsSpace(s[0]) then Atoi(s[1..])
    else if s[0] == '-' then 0 - AtoiDigits(s[1..], 0)
    else if s[0] == '+' then AtoiDigits(s[1..], 0)
    else AtoiDigits(s, 0)
  }

  lemma {:induction false} DecimalValue(n: nat)
    ensures Value(Decimal(n)) == n
  {
    if n < 10 {
      assert [ToDigit(n)][..0] == [];
    } else {
      DecimalValue(n / 10);
      assert Decimal(n)[..|Decimal(n)| - 1] == Decimal(n / 10);
    }
  }

  /** Having read the digits `done`, atoi reads on to the end of the digits. */
  lemma {:induction false} AtoiReads(done: string, ds: string, rest: string)
    requires AllDigits(done) && AllDigits(ds) && (rest == [] || !IsDigit(rest[0]))
    ensures AllDigits(done + ds) && AtoiDigits(ds + rest, Value(done)) == Value(done + ds)
    decreases |ds|
  {
    if ds == [] {
      assert ds + rest == rest && done + ds == done;
    } else {
      var more := done + [ds[0]];
      assert more[..|done|] == done;
      assert (ds + rest)[1..] == ds[1..] + rest;
      AtoiReads(more, ds[1..], rest);
      assert more + ds[1..] == done + ds;
    }
  }

  lemma AtoiFromZero(ds: string, rest: string)
    requires AllDigits(ds) && (rest == [] || !IsDigit(rest[0]))
    ensures AtoiDigits(ds + rest, 0) == Value(ds)
  {
    var none := ds[..0];
    AtoiReads(none, ds, rest);
    assert none + ds == ds;
  }

  lemma NoSign(s: string)
    requires s != [] && IsDigit(s[0])
    ensures Atoi(s) == AtoiDigits(s, 0)
  {
  }

  lemma Signed(s: string)
    requires s != [] && s[0] == '-'
    ensures Atoi(s) == 0 - AtoiDigits(s[1..], 0)
  {
  }

  lemma AtoiOfDigits(ds: string, rest: string)
    requires |ds| > 0 && AllDigits(ds) && (rest == [] || !IsDigit(rest[0]))
    ensures Atoi(ds + rest) == Value(ds)
  {
    assert (ds + rest)[0] == ds[0];
    NoSign(ds + rest);
    AtoiFromZero(ds, rest);
  }

  lemma AtoiOfPrint(n: int, rest: string)
    requires rest == [] || !IsDigit(rest[0])
    ensures Atoi(Print(n) + rest) == n
  {
    if n < 0 {
      var ds := Decimal(-n);
      DecimalValue(-n);
      AtoiFromZero(ds, rest);
      assert Print(n) + rest == ['-'] + (ds + rest);
      Signed(['-'] + (ds + rest));
      assert (['-'] + (ds + rest))[1..] == ds + rest;
    } else {
      DecimalValue(n);
      AtoiOfDigits(Decimal(n), rest);
    }
  }

  const INT_MAX := 0x7FFF_FFFF

  /** atoi as the language standard has it: when the number is no int, any int may come back. */
  method AtoiInt(s: string) returns (v: int)
    ensures -INT_MAX - 1 <= v <= INT_MAX
    ensures -INT_MAX - 1 <= Atoi(s) <= INT_MAX ==> v == Atoi(s)
  {
    v := Atoi(s);
    if !(-INT_MAX - 1 <= v <= INT_MAX) {
      v :| -INT_MAX - 1 <= v <= INT_MAX;
    }
  }

  // ---------------------------------------------------------------- one command over a pipe

  /** write_cmd: the bytes written; what follows the terminator is whatever the stack held. */
  function Encode(cmd: int, stack: string): (message: string)
    requires |Print(cmd)| < |stack|
    ensures |message| == |stack|
  {
    Print(cmd) + [NUL] + stack[|Print(cmd)| + 1..]
  }

  /** read_cmd, for a message that arrives whole. */
  function Decode(message: string): (cmd: int)
  {
    Atoi(message)
  }

  /** Every command comes back, whatever the uninitialised part of the buffer held. */
  lemma RoundTrip(cmd: int, stack: string)
    requires |Print(cmd)| < |stack|
    ensures Decode(Encode(cmd, stack)) == cmd
  {
    var rest := [NUL] + stack[|Print(cmd)| + 1..];
    assert Encode(cmd, stack) == Print(cmd) + rest;
    AtoiOfPrint(cmd, rest);
  }

  // ---------------------------------------------------------------- the player's line

  /** The C string at the start of a buffer. */
  function Line(str: string): (line: string)
    requires NUL in str
    ensures |line| < |str| && str[|line|] == NUL && NUL !in line && line == str[..|line|]
  {
    if str[0] == NUL then [] else [str[0]] + Line(str[1..])
  }

  /** parse_line accepts the line: digits only, fewer than max of them, denoting 1 to 9. */
  predicate Accepted(line: string, max: nat) {
    0 < |line| < max && AllDigits(line) && 1 <= Value(line) <= 9
  }

  /** The cell a line asks for, -1 if it is not accepted. */
  function Choice(line: string, max: nat): (index: int)
    ensures -1 <= index <= 8
    ensures index >= 0 <==> Accepted(line, max)
  {
    if Accepted(line, max) then Value(line) - 1 else -1
  }

  /** What parse_line may return, -1 for a refusal: the choice, unless the line is a number that is no int. */
  predicate Reads(line: string, max: nat, move: int) {
    if 0 < |line| < max && AllDigits(line) && Value(line) > INT_MAX then -1 <= move <= 8
    else move == Choice(line, max)
  }

  /** parse_line; max is MAX_BUFFER_LENGTH. */
  method ParseLine(str: string, max: nat) returns (ok: bool, index: int)
    requires NUL in str
    ensures Reads(Line(str), max, if ok then index else -1)
    ensures ok ==> 0 <= index <= 8
  {
    index := 0;
    var i, j := 0, 0;
    var buffer := new char[max + 1];
    if str[0] == NUL {
      return false, index;
    }
    while i < max
      invariant 0 <= i == j <= max && i <= |Line(str)|
      invariant buffer[..j] == str[..i] && AllDigits(str[..i])
    {
      if '0' <= str[i] <= '9' {
        buffer[j] := str[i];
        j := j + 1;
        i := i + 1;
      } else if str[i] == NUL {
        buffer[j] := NUL;
        EndOfLine(str, i);
        AtoiOfBuffer(buffer[..], j);
        assert buffer[..][..j] == str[..i];
        index := AtoiInt(buffer[..]);
        if index <= 0 || index > 9 {
          return false, index;
        }
        index := index - 1;
        return true, index;
      } else {
        assert Line(str)[i] == str[i];
        return false, index;
      }
    }
    return false, index;
  }

  lemma AtoiOfBuffer(buffer: string, j: nat)
    requires 0 < j < |buffer| && AllDigits(buffer[..j]) && buffer[j] == NUL
    ensures Atoi(buffer) == Value(buffer[..j])
  {
    AtoiOfDigits(buffer[..j], buffer[j..]);
    assert buffer == buffer[..j] + buffer[j..];
  }

  lemma EndOfLine(str: string, i: nat)
    requires NUL in str && i <= |Line(str)| && str[i] == NUL
    ensures Line(str) == str[..i]
  {
  }

  /** The lines accepted: one digit from 1 to 9 after any number of zeros. */
  lemma {:induction false} AcceptedLines(line: string, max: nat)
    ensures Accepted(line, max) <==>
              0 < |line| < max && '1' <= line[|line| - 1] <= '9' && forall i :: 0 <= i < |line| - 1 ==> line[i] == '0'
    ensures Accepted(line, max) ==> Choice(line, max) == line[|line| - 1] as int - '1' as int
  {
    if 0 < |line| < max {
      var front := line[..|line| - 1];
      if AllDigits(line) {
        assert Value(line) == 10 * Value(front) + DigitOf(line[|line| - 1]);
        ZeroIsZeros(front);
      }
      assert forall i :: 0 <= i < |front| ==> front[i] == line[i];
    }
  }

  lemma {:induction false} ZeroIsZeros(s: string)
    requires AllDigits(s)
    ensures Value(s) == 0 <==> forall i :: 0 <= i < |s| ==> s[i] == '0'
  {
    if s != [] {
      var front := s[..|s| - 1];
      ZeroIsZeros(front);
      assert forall i :: 0 <= i < |front| ==> front[i] == s[i];
      assert DigitOf(s[|s| - 1]) == 0 <==> s[|s| - 1] == '0';
    }
  }

  function Pow10(k: nat): (p: nat)
    ensures p > 0
  {
    if k == 0 then 1 else 10 * Pow10(k - 1)
  }

  lemma {:induction false} ValueBelow(s: string)
    requires AllDigits(s)
    ensures Value(s) < Pow10(|s|)
  {
    if s != [] {
      ValueBelow(s[..|s| - 1]);
    }
  }

  lemma {:induction false} Pow10Grows(j: nat, k: nat)
    requires j <= k
    ensures Pow10(j) <= Pow10(k)
  {
    if j < k {
      Pow10Grows(j, k - 1);
    }
  }

  function Nines(k: nat): (s: string)
    ensures |s| == k && AllDigits(s)
  {
    if k == 0 then [] else Nines(k - 1) + ['9']
  }

  lemma {:induction false} NinesValue(k: nat)
    ensures Value(Nines(k)) == Pow10(k) - 1
  {
    if k > 0 {
      NinesValue(k - 1);
      assert Nines(k)[..k - 1] == Nines(k - 1);
    }
  }

  lemma Billion()
    ensures Pow10(9) == 1_000_000_000 && Pow10(10) == 10_000_000_000
  {
    assert Pow10(3) == 1000;
    assert Pow10(6) == 1_000_000;
  }

  /** parse_line reads every line as its choice exactly if no line of ten digits fits its buffer. */
  lemma ReadsExactly(max: nat)
    ensures (forall line, move :: Reads(line, max, move) ==> move == Choice(line, max)) <==> max <= 10
  {
    Billion();
    if max <= 10 {
      forall line, move | Reads(line, max, move)
        ensures move == Choice(line, max)
      {
        if 0 < |line| < max && AllDigits(line) {
          ValueBelow(line);
          Pow10Grows(|line|, 9);
        }
      }
    } else {
      var line := Nines(10);
      NinesValue(10);
      assert Reads(line, max, 0) && Choice(line, max) == -1;
    }
  }
}
