/** The fixed-size output buffer of the crash handler, its allocation-free append helpers,
    and the flush loop over a `write` that may make partial progress, be interrupted or fail. */
module DumpBuffers {
  import opened Numerals

  const DUMP_BUF_SIZE := 8192
  const WORD_LIMIT := 0x1_0000_0000_0000_0000

  type Word = w: nat | w < 0x1_0000_0000_0000_0000
  type UInt32 = v: nat | v < 0x1_0000_0000
  type Int32 = v: int | -0x8000_0000 <= v < 0x8000_0000

  /** What the buffer keeps of an appended stream: everything up to one byte less than its size. */
  function Capped(s: string): string {
    if |s| <= DUMP_BUF_SIZE - 1 then s else s[..DUMP_BUF_SIZE - 1]
  }

  /** At most 8191 characters are kept, and none before the cap is lost. */
  lemma CappedKeeps(s: string)
    ensures Capped(s) <= s && |Capped(s)| == (if |s| < 8191 then |s| else 8191)
  {
  }

  lemma CappedAppend(a: string, b: string)
    ensures Capped(Capped(a) + b) == Capped(a + b)
  {
    if |a| > DUMP_BUF_SIZE - 1 {
      assert (a + b)[..DUMP_BUF_SIZE - 1] == a[..DUMP_BUF_SIZE - 1];
      assert (Capped(a) + b)[..DUMP_BUF_SIZE - 1] == Capped(a);
    }
  }

  /** The part of a character array that reads as a C string. */
  function UpToNul(s: string): string {
    if s == [] || s[0] == '\0' then [] else [s[0]] + UpToNul(s[1..])
  }

  lemma {:induction false} UpToNulSplit(s: string, i: nat)
    requires i <= |s| && '\0' !in s[..i]
    ensures UpToNul(s) == s[..i] + UpToNul(s[i..])
  {
    if i > 0 {
      assert s[0] in s[..i];
      assert s[1..][..i - 1] == s[1..i];
      assert forall c :: c in s[1..i] ==> c in s[..i];
      UpToNulSplit(s[1..], i - 1);
      assert s[1..][i - 1..] == s[i..];
    }
  }

  /** One result of write(2): some bytes accepted (a count larger than requested stands for all
      of them, zero for a return value of 0), interrupted by a signal, or another error. */
  datatype WriteOutcome = Accept(count: nat) | Interrupted | Failed {
    predicate Reliable() { Interrupted? || (Accept? && count > 0) }
  }

  predicate AllReliable(script: seq<WriteOutcome>) {
    forall i :: 0 <= i < |script| ==> script[i].Reliable()
  }

  function Min(a: nat, b: nat): nat { if a <= b then a else b }

  datatype Drained = Drained(text: string, script: seq<WriteOutcome>)

  /** What one flush of `pending` lets through, and the write outcomes left over.
      A used-up script stands for writes that accept everything. */
  function Drain(pending: string, script: seq<WriteOutcome>): Drained
    decreases |pending|, |script|
  {
    if pending == [] then Drained([], script)
    else if script == [] then Drained(pending, [])
    else match script[0]
      case Accept(n) =>
        if n == 0 then Drained([], script[1..])
        else
          var k := Min(n, |pending|);
          var rest := Drain(pending[k..], script[1..]);
          Drained(pending[..k] + rest.text, rest.script)
      case Interrupted => Drain(pending, script[1..])
      case Failed => Drained([], script[1..])
  }

  lemma {:induction false} DrainIsPrefix(pending: string, script: seq<WriteOutcome>)
    ensures Drain(pending, script).text <= pending
    decreases |pending|, |script|
  {
    if pending != [] && script != [] {
      match script[0]
      case Accept(n) =>
        if n > 0 {
          var k := Min(n, |pending|);
          DrainIsPrefix(pending[k..], script[1..]);
          assert pending == pending[..k] + pending[k..];
        }
      case Interrupted => DrainIsPrefix(pending, script[1..]);
      case Failed =>
    }
  }

  /** If writes only make partial progress or are interrupted finitely often, nothing is lost. */
  lemma {:induction false} DrainReliable(pending: string, script: seq<WriteOutcome>)
    requires AllReliable(script)
    ensures Drain(pending, script).text == pending
    ensures AllReliable(Drain(pending, script).script)
    decreases |pending|, |script|
  {
    if pending != [] && script != [] {
      match script[0]
      case Accept(n) =>
        var k := Min(n, |pending|);
        DrainReliable(pending[k..], script[1..]);
        assert pending == pending[..k] + pending[k..];
      case Interrupted => DrainReliable(pending, script[1..]);
      case Failed => assert false;
    }
  }

  /** Bytes accepted by the writes of a script. */
  function Accepted(script: seq<WriteOutcome>): nat {
    if script == [] then 0 else (if script[0].Accept? then script[0].count else 0) + Accepted(script[1..])
  }

  /** Every write that fails or accepts nothing comes after enough has been accepted. */
  predicate StopsLate(script: seq<WriteOutcome>, needed: nat) {
    forall k :: 0 <= k < |script| && script[k] in {Failed, Accept(0)} ==> Accepted(script[..k]) >= needed
  }

  lemma StopsLateStep(script: seq<WriteOutcome>, needed: nat)
    requires script != [] && script[0].Reliable()
    ensures var n := if script[0].Accept? then script[0].count else 0;
      StopsLate(script, needed) <==> StopsLate(script[1..], needed - Min(n, needed))
  {
    forall k | 0 < k < |script|
      ensures script[k] == script[1..][k - 1]
      ensures Accepted(script[..k])
        == (if script[0].Accept? then script[0].count else 0) + Accepted(script[1..][..k - 1])
    {
      assert script[..k][1..] == script[1..][..k - 1];
    }
    assert forall k :: 0 <= k < |script[1..]| ==> script[1..][k] == script[k + 1];
    if StopsLate(script, needed) {
      forall k | 0 <= k < |script[1..]| && script[1..][k] in {Failed, Accept(0)}
        ensures Accepted(script[1..][..k]) >= needed - Min(if script[0].Accept? then script[0].count else 0, needed)
      {
        assert script[k + 1] in {Failed, Accept(0)} && Accepted(script[..k + 1]) >= needed;
      }
    }
  }

  /** A flush lets everything through exactly when no write fails or accepts nothing before the accepted
      counts add up to what is pending. */
  lemma {:induction false} DrainsAllIff(pending: string, script: seq<WriteOutcome>)
    ensures Drain(pending, script).text == pending <==> StopsLate(script, |pending|)
    decreases |pending|, |script|
  {
    if pending != [] && script != [] {
      if script[0].Reliable() {
        var k := Min(if script[0].Accept? then script[0].count else 0, |pending|);
        DrainsAllIff(pending[k..], script[1..]);
        StopsLateStep(script, |pending|);
        assert pending[0..] == pending;
        SplitEqual(pending, k, Drain(pending[k..], script[1..]).text);
      } else {
        assert Accepted(script[..0]) == 0;
      }
    }
  }

  lemma SplitEqual(s: string, k: nat, rest: string)
    requires k <= |s|
    ensures s[..k] + rest == s <==> rest == s[k..]
  {
    if s[..k] + rest == s {
      assert (s[..k] + rest)[k..] == rest;
    }
  }

  /** Standard error: everything written so far, and how the coming writes will go. */
  class Stderr {
    var output: string
    var script: seq<WriteOutcome>

    constructor (script: seq<WriteOutcome>)
      ensures output == [] && this.script == script
    {
      output := [];
      this.script := script;
    }

    /** write(2) of `data`; `bytes` is negative on an error, `interrupted` is errno == EINTR. */
    method Write(data: string) returns (bytes: int, interrupted: bool)
      requires data != []
      modifies this
      ensures old(script) == [] ==> bytes == |data| && script == []
      ensures old(script) != [] ==> script == old(script)[1..]
      ensures old(script) != [] && old(script)[0].Accept? ==> bytes == Min(old(script)[0].count, |data|)
      ensures old(script) != [] && !old(script)[0].Accept? ==>
        bytes < 0 && interrupted == old(script)[0].Interrupted?
      ensures bytes <= |data|
      ensures output == old(output) + (if bytes > 0 then data[..bytes] else [])
    {
      interrupted := false;
      if script == [] {
        bytes := |data|;
      } else {
        match script[0] {
          case Accept(n) => bytes := Min(n, |data|);
          case Interrupted => bytes, interrupted := -1, true;
          case Failed => bytes := -1;
        }
        script := script[1..];
      }
      if bytes > 0 {
        output := output + data[..bytes];
      }
    }
  }

  /** Invariant: the buffer holds the capped prefix of what was appended since the last flush. */
  class DumpBuffer {
    const data: array<char>
    var len: nat
    ghost var appended: string

    ghost predicate Valid()
      reads this, data
    {
      && data.Length == DUMP_BUF_SIZE
      && len <= DUMP_BUF_SIZE - 1
      && data[..len] == Capped(appended)
    }

    constructor ()
      ensures Valid() && appended == [] && fresh(data)
    {
      data := new char[DUMP_BUF_SIZE];
      len := 0;
      appended := [];
    }

    method AppendCh(ch: char)
      requires Valid()
      modifies this, data
      ensures Valid() && appended == old(appended) + [ch]
    {
      CappedAppend(appended, [ch]);
      if len < DUMP_BUF_SIZE - 1 {
        data[len] := ch;
        len := len + 1;
        assert data[..len] == old(data[..len]) + [ch];
      } else {
        assert (Capped(appended) + [ch])[..DUMP_BUF_SIZE - 1] == Capped(appended);
      }
      appended := appended + [ch];
    }

    /** `text` is a C string without its terminator. */
    method AppendLit(text: string)
      requires Valid()
      modifies this, data
      ensures Valid() && appended == old(appended) + text
    {
      var i := 0;
      while i < |text|
        invariant i <= |text| && Valid()
        invariant appended == old(appended) + text[..i]
      {
        AppendCh(text[i]);
        assert text[..i + 1] == text[..i] + [text[i]];
        i := i + 1;
      }
      assert text[..i] == text;
    }

    /** Appends the characters of a fixed-size name field up to its first NUL. */
    method AppendStrN(text: string, n: nat)
      requires Valid() && n <= |text|
      modifies this, data
      ensures Valid() && appended == old(appended) + UpToNul(text[..n])
    {
      ghost var field := text[..n];
      var i := 0;
      while i < n
        invariant i <= n && Valid()
        invariant '\0' !in field[..i]
        invariant appended == old(appended) + field[..i]
      {
        if text[i] == '\0' {
          break;
        }
        AppendCh(text[i]);
        assert field[..i + 1] == field[..i] + [text[i]];
        i := i + 1;
      }
      UpToNulSplit(field, i);
      assert UpToNul(field[i..]) == [];
      assert UpToNul(field) == field[..i];
    }

    method AppendHex(value: Word)
      requires Valid()
      modifies this, data
      ensures Valid() && appended == old(appended) + Numeral(value, Hexadecimal)
    {
      WordPowers();
      AppendDigits(value, Hexadecimal, 16);
    }

    method AppendHex0x(value: Word)
      requires Valid()
      modifies this, data
      ensures Valid() && appended == old(appended) + "0x" + Numeral(value, Hexadecimal)
    {
      AppendLit("0x");
      AppendHex(value);
    }

    method AppendDec(value: UInt32)
      requires Valid()
      modifies this, data
      ensures Valid() && appended == old(appended) + Numeral(value, Decimal)
    {
      WordPowers();
      AppendDigits(value, Decimal, 10);
    }

    /** Appends the digits that `CollectDigits` left in a scratch array of `room` places. */
    method AppendDigits(value: nat, r: Radix, room: nat)
      requires Valid() && 1 <= room && value < Power(r, room)
      modifies this, data
      ensures Valid() && appended == old(appended) + Numeral(value, r)
    {
      if value == 0 {
        AppendCh('0');
        return;
      }
      NumeralLength(value, r, room);
      var tmp := new char[room];
      var i := CollectDigits(value, r, tmp);
      AppendReversed(tmp, i);
    }

    method AppendReversed(tmp: array<char>, n: nat)
      requires Valid() && n <= tmp.Length && tmp != data
      modifies this, data
      ensures Valid() && appended == old(appended) + Backwards(tmp[..n])
    {
      ghost var text := Backwards(tmp[..n]);
      BackwardsAt(tmp[..n]);
      var i := n;
      while i > 0
        invariant 0 <= i <= n && Valid()
        invariant appended == old(appended) + text[..n - i]
      {
        i := i - 1;
        AppendCh(tmp[i]);
        assert tmp[i] == tmp[..n][i] == text[n - i - 1];
        assert text[..n - i] == text[..n - i - 1] + [tmp[i]];
      }
      assert text[..n] == text;
    }

    /** The magnitude is formed without negating the minimum, in 32-bit steps. */
    method AppendDecSigned(value: Int32)
      requires Valid()
      modifies this, data
      ensures Valid() && appended == old(appended) + SignedNumeral(value)
    {
      var magnitude: UInt32;
      if value < 0 {
        AppendCh('-');
        var flipped: Int32 := -(value + 1);
        magnitude := flipped + 1;
      } else {
        magnitude := value;
      }
      AppendDec(magnitude);
    }

    /** Writes the buffer out and empties it, whatever the writes do. */
    method FlushDump(err: Stderr)
      requires Valid()
      modifies this, err
      ensures Valid() && appended == []
      ensures err.output == old(err.output) + Drain(Capped(old(appended)), old(err.script)).text
      ensures err.script == Drain(Capped(old(appended)), old(err.script)).script
    {
      ghost var pending := Capped(appended);
      ghost var target := Drain(pending, err.script);
      var written := 0;
      while written < len
        invariant written <= len == old(len) && data[..len] == pending
        invariant err.output + Drain(pending[written..], err.script).text == old(err.output) + target.text
        invariant Drain(pending[written..], err.script).script == target.script
        decreases len - written, |err.script|
      {
        assert data[written..len] == pending[written..];
        DrainStep(err.output, pending, written, err.script);
        var bytes, interrupted := err.Write(data[written..len]);
        if bytes > 0 {
          written := written + bytes;
        } else if bytes < 0 && interrupted {
          continue;
        } else {
          break;
        }
      }
      len := 0;
      appended := [];
    }
  }

  /** One write, in terms of what the rest of the flush lets through. */
  lemma DrainStep(output: string, pending: string, written: nat, script: seq<WriteOutcome>)
    requires written < |pending|
    ensures var rest := pending[written..];
      var drained := Drain(rest, script);
      if script == [] then drained == Drained(rest, []) && output + rest[..|rest|] == output + drained.text
      else match script[0]
        case Accept(n) =>
          if n == 0 then drained == Drained([], script[1..])
          else
            var k := Min(n, |rest|);
            var later := Drain(pending[written + k..], script[1..]);
            later.script == drained.script && output + rest[..k] + later.text == output + drained.text
        case Interrupted => drained == Drain(rest, script[1..])
        case Failed => drained == Drained([], script[1..])
  {
    var rest := pending[written..];
    assert rest[..|rest|] == rest;
    if script != [] && script[0].Accept? && script[0].count > 0 {
      var k := Min(script[0].count, |rest|);
      assert rest[k..] == pending[written + k..];
      assert output + rest[..k] + Drain(rest[k..], script[1..]).text
          == output + (rest[..k] + Drain(rest[k..], script[1..]).text);
    }
  }

  /** The scratch-array loop of the hexadecimal and the decimal helper (for an unsigned value,
      masking and shifting by four bits are remainder and quotient by 16): digits are collected
      least significant first. */
  method CollectDigits(value: nat, r: Radix, tmp: array<char>) returns (i: nat)
    requires 0 < value && |Numeral(value, r)| <= tmp.Length
    modifies tmp
    ensures i <= tmp.Length && Backwards(tmp[..i]) == Numeral(value, r)
  {
    ghost var text := Numeral(value, r);
    var v: nat := value;
    i := 0;
    while v != 0
      invariant 0 <= i <= tmp.Length
      invariant text == Leading(v, r) + Backwards(tmp[..i])
      decreases v
    {
      ghost var done := tmp[..i];
      NumeralStep(v, r);
      MoveDigit(Leading(r.Quotient(v), r), DigitChar(r.Remainder(v)), done);
      tmp[i] := DigitChar(r.Remainder(v));
      i := i + 1;
      assert tmp[..i] == done + [DigitChar(r.Remainder(v))];
      v := r.Quotient(v);
    }
  }

  lemma BackwardsPush(s: string, c: char)
    ensures Backwards(s + [c]) == [c] + Backwards(s)
  {
    assert (s + [c])[..|s|] == s;
  }

  function Backwards(s: string): string {
    if s == [] then [] else [s[|s| - 1]] + Backwards(s[..|s| - 1])
  }

  lemma {:induction false} BackwardsAt(s: string)
    ensures |Backwards(s)| == |s|
    ensures forall k :: 0 <= k < |s| ==> Backwards(s)[k] == s[|s| - 1 - k]
    decreases |s|
  {
    if s != [] {
      BackwardsAt(s[..|s| - 1]);
    }
  }

  lemma MoveDigit(after: string, d: char, done: string)
    ensures after + [d] + Backwards(done) == after + Backwards(done + [d])
    ensures |done| < |after + [d] + Backwards(done)|
  {
    BackwardsAt(done);
    BackwardsPush(done, d);
  }
}
