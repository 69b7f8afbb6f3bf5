/** vsnprintf of kernel/kernel/debug.c as code: it stores into a bounded buffer, character by
    character. */
module Formatters {
  import opened Bits
  import opened Numerals
  import opened Pieces
  import opened Formats

  // ----- Buffers -----

  /** `after` is `before` with `t` written at `at`. */
  predicate Wrote(before: seq<char>, after: seq<char>, at: nat, t: string)
  {
    && at + |t| <= |before| == |after|
    && forall i :: 0 <= i < |after| ==> after[i] == if at <= i < at + |t| then t[i - at] else before[i]
  }

  lemma WroteTwice(s0: seq<char>, s1: seq<char>, s2: seq<char>, at: nat, t: string, u: string)
    requires Wrote(s0, s1, at, t) && Wrote(s1, s2, at + |t|, u)
    ensures Wrote(s0, s2, at, t + u)
  {
  }

  /** str[at] = c. */
  method StoreChar(str: array<char>, at: nat, c: char)
    requires at < str.Length
    modifies str
    ensures Wrote(old(str[..]), str[..], at, [c])
  {
    str[at] := c;
  }

  /** Copies `text` while it lasts and `at` is below `limit`. */
  method CopyText(str: array<char>, at: nat, limit: nat, text: string) returns (end: nat)
    requires at <= limit <= str.Length
    modifies str
    ensures end == at + |Take(text, limit - at)| && Wrote(old(str[..]), str[..], at, Take(text, limit - at))
  {
    end := at;
    ghost var before := str[..];
    var i := 0;
    while i < |text| && end < limit
      invariant 0 <= i <= |text| && end == at + i <= limit
      invariant Wrote(before, str[..], at, text[..i])
    {
      ghost var mid := str[..];
      StoreChar(str, end, text[i]);
      WroteTwice(before, mid, str[..], at, text[..i], [text[i]]);
      assert text[..i] + [text[i]] == text[..i + 1];
      end := end + 1;
      i := i + 1;
    }
    assert text[..i] == Take(text, limit - at);
  }

  /** Copies buffer[pos-1], ..., buffer[0] while `at` is below `limit`. */
  method CopyReversed(str: array<char>, at: nat, limit: nat, buffer: array<char>, pos: nat) returns (end: nat)
    requires at <= limit <= str.Length && pos <= buffer.Length && str != buffer
    modifies str
    ensures var t := Take(Reverse(buffer[..pos]), limit - at);
            end == at + |t| && Wrote(old(str[..]), str[..], at, t)
  {
    end := at;
    ghost var before, text := str[..], Reverse(buffer[..pos]);
    var left := pos;
    while left > 0 && end < limit
      invariant left <= pos && end == at + (pos - left) <= limit
      invariant Wrote(before, str[..], at, text[..pos - left])
    {
      ghost var mid, i := str[..], pos - left;
      left := left - 1;
      StoreChar(str, end, buffer[left]);
      WroteTwice(before, mid, str[..], at, text[..i], [text[i]]);
      assert text[..i] + [text[i]] == text[..i + 1];
      end := end + 1;
    }
    assert text[..pos - left] == Take(text, limit - at);
  }

  // ----- The conversions of vsnprintf -----

  /** case 'd' and 'i'. */
  method StoreSigned(str: array<char>, at: nat, limit: nat, value: int32) returns (end: nat)
    requires at <= limit <= str.Length && value > INT_MIN
    modifies str
    ensures var t := Take(Signed(value), limit - at);
            end == at + |t| && Wrote(old(str[..]), str[..], at, t)
  {
    var buffer := new char[32];
    var negative := value < 0;
    var magnitude := if negative then -value else value;
    var pos := DigitsReversed(buffer, magnitude, Dec, true);
    if negative && pos < 31 {
      ghost var digits := buffer[..pos];
      buffer[pos] := '-';
      assert buffer[..pos + 1] == digits + ['-'];
      ReverseAppend(digits, '-');
      pos := pos + 1;
    }
    assert Reverse(buffer[..pos]) == Signed(value);
    end := CopyReversed(str, at, limit, buffer, pos);
  }

  /** case 'u', and the digits after "0x". */
  method StoreUnsigned(str: array<char>, at: nat, limit: nat, value: uint32, r: Radix, upper: bool) returns (end: nat)
    requires at <= limit <= str.Length
    modifies str
    ensures var t := Take(Numeral(value, r, upper), limit - at);
            end == at + |t| && Wrote(old(str[..]), str[..], at, t)
  {
    var buffer := new char[32];
    var pos := DigitsReversed(buffer, value, r, upper);
    end := CopyReversed(str, at, limit, buffer, pos);
  }

  /** The loop that pads a reversed numeral to eight digits. */
  method PadToEight(buffer: array<char>, pos: nat) returns (end: nat)
    requires buffer.Length == 32 && 0 < pos <= 8
    modifies buffer
    ensures end == 8 && Reverse(buffer[..8]) == ZeroDigits(8 - pos) + old(Reverse(buffer[..pos]))
  {
    end := pos;
    ghost var digits := buffer[..pos];
    while end < 8 && end < 31
      invariant pos <= end <= 8 && buffer[..pos] == digits
      invariant forall i :: pos <= i < end ==> buffer[i] == '0'
    {
      buffer[end] := '0';
      end := end + 1;
    }
    PadReverse(buffer[..8], digits);
  }

  lemma PadReverse(full: string, digits: string)
    requires |digits| <= |full| && full[..|digits|] == digits
    requires forall i :: |digits| <= i < |full| ==> full[i] == '0'
    ensures Reverse(full) == ZeroDigits(|full| - |digits|) + Reverse(digits)
  {
    assert forall i :: 0 <= i < |digits| ==> full[i] == digits[i];
  }

  /** The digits of a pointer, padded to eight. */
  method StorePadded(str: array<char>, at: nat, limit: nat, value: uint32) returns (end: nat)
    requires at <= limit <= str.Length
    modifies str
    ensures var t := Take(Padded(value), limit - at);
            end == at + |t| && Wrote(old(str[..]), str[..], at, t)
  {
    var buffer := new char[32];
    var pos := PaddedReversed(buffer, value);
    end := CopyReversed(str, at, limit, buffer, pos);
  }

  /** The digits of a pointer before they are padded. */
  method HexReversed(buffer: array<char>, value: uint32) returns (pos: nat)
    requires buffer.Length == 32
    modifies buffer
    ensures 0 < pos <= 10 && pos == |Numeral(value, Hex, false)| && Reverse(buffer[..pos]) == Numeral(value, Hex, false)
  {
    pos := DigitsReversed(buffer, value, Hex, false);
    assert |Reverse(buffer[..pos])| == pos;
  }

  method PaddedReversed(buffer: array<char>, value: uint32) returns (pos: nat)
    requires buffer.Length == 32
    modifies buffer
    ensures pos <= 8 && Reverse(buffer[..pos]) == Padded(value)
  {
    pos := HexReversed(buffer, value);
    PaddedIs(value);
    pos := PadToEight(buffer, pos);
  }

  lemma PaddedIs(value: uint32)
    ensures var text := Numeral(value, Hex, false);
            |text| <= 8 && Padded(value) == ZeroDigits(8 - |text|) + text
  {
    WordLength(value, Hex, false);
  }

  /** The digits that follow "0x". */
  function HexDigits(value: uint32, upper: bool, padded: bool): string
  {
    if padded then Padded(value) else Numeral(value, Hex, upper)
  }

  method StoreDigits(str: array<char>, at: nat, limit: nat, value: uint32, upper: bool, padded: bool) returns (end: nat)
    requires at <= limit <= str.Length
    modifies str
    ensures var t := Take(HexDigits(value, upper, padded), limit - at);
            end == at + |t| && Wrote(old(str[..]), str[..], at, t)
  {
    if padded {
      end := StorePadded(str, at, limit, value);
    } else {
      end := StoreUnsigned(str, at, limit, value, Hex, upper);
    }
  }

  /** "0x" and then the digits, or nothing when fewer than two characters are left. */
  method StorePrefixed(str: array<char>, at: nat, limit: nat, value: uint32, upper: bool, padded: bool) returns (end: nat)
    requires at <= limit <= str.Length
    modifies str
    ensures var t := if limit - at < 2 then "" else Take("0x" + HexDigits(value, upper, padded), limit - at);
            end == at + |t| && Wrote(old(str[..]), str[..], at, t)
  {
    end := at;
    if !(end + 1 < limit) {
      return;
    }
    ghost var s0, digits := str[..], HexDigits(value, upper, padded);
    assert Take("0x", limit - at) == "0x";
    end := CopyText(str, end, limit, "0x");
    ghost var s1 := str[..];
    end := StoreDigits(str, end, limit, value, upper, padded);
    PrefixJoined(s0, s1, str[..], at, digits, limit - at);
  }

  lemma PrefixJoined(s0: seq<char>, s1: seq<char>, s2: seq<char>, at: nat, digits: string, room: nat)
    requires room >= 2 && Wrote(s0, s1, at, "0x") && Wrote(s1, s2, at + 2, Take(digits, room - 2))
    ensures Wrote(s0, s2, at, Take("0x" + digits, room)) && |Take("0x" + digits, room)| == 2 + |Take(digits, room - 2)|
  {
    TakePrefixed(digits, room);
    WroteTwice(s0, s1, s2, at, "0x", Take(digits, room - 2));
  }

  lemma TakePrefixed(digits: string, room: nat)
    requires room >= 2
    ensures Take("0x", room) == "0x" && Take("0x" + digits, room) == "0x" + Take(digits, room - 2)
  {
  }

  /** What vsnprintf stores for one conversion with `room` characters left. */
  function StoredFor(c: char, a: Arg, room: nat): string
    requires IsConversion(c) && Fits(c, a)
  {
    Stored(if HasPrefix(c, a) then Prefixed(Convert(c, a)) else Text(Convert(c, a)), room)
  }

  /** The switch of vsnprintf. */
  method StoreConversion(str: array<char>, at: nat, limit: nat, c: char, a: Arg) returns (end: nat)
    requires at < limit <= str.Length && IsConversion(c) && Fits(c, a)
    modifies str
    ensures end == at + |StoredFor(c, a, limit - at)| && Wrote(old(str[..]), str[..], at, StoredFor(c, a, limit - at))
  {
    match c
    case 'd' => end := StoreSigned(str, at, limit, a.i);
    case 'i' => end := StoreSigned(str, at, limit, a.i);
    case 'u' => end := StoreUnsigned(str, at, limit, a.u, Dec, true);
    case 'x' => end := StorePrefixed(str, at, limit, a.u, false, false);
    case 'X' => end := StorePrefixed(str, at, limit, a.u, true, false);
    case 'p' =>
      if a.p == 0 {
        end := CopyText(str, at, limit, "(nil)");
      } else {
        end := StorePrefixed(str, at, limit, a.p, false, true);
      }
    case 's' => end := CopyText(str, at, limit, StringOf(a));
    case _ => end := CopyText(str, at, limit, [CharOf(a)]);
  }

  // ----- vsnprintf -----

  /** One round of the loop of vsnprintf. */
  method StorePiece(str: array<char>, at: nat, limit: nat, f: string, args: seq<Arg>) returns (end: nat, ghost t: string)
    requires at < limit <= str.Length && HeadOk(f, args)
    modifies str
    ensures t == Stored(Head(f, args), limit - at)
    ensures end == at + |t| && Wrote(old(str[..]), str[..], at, t)
  {
    t := Stored(Head(f, args), limit - at);
    if f[0] != '%' {
      StoreChar(str, at, f[0]);
      end := at + 1;
    } else if f[1] == '%' {
      StoreChar(str, at, '%');
      end := at + 1;
    } else if IsConversion(f[1]) {
      end := StoreConversion(str, at, limit, f[1], args[0]);
    } else {
      end := CopyText(str, at, limit, ['%', f[1]]);
    }
  }

  /** `t` is what the next step stores, and the rest of the format is read after it. */
  ghost predicate Steps(f: string, args: seq<Arg>, room: nat, t: string)
    requires Reads(f, args, room)
  {
    && !Ends(f) && HeadOk(f, args) && |t| <= room && Reads(Rest(f), RestArgs(f, args), room - |t|)
    && Bounded(f, args, room) == t + Bounded(Rest(f), RestArgs(f, args), room - |t|)
  }

  /** StorePiece, as one step through what is stored. */
  method StoreNext(str: array<char>, at: nat, limit: nat, f: string, args: seq<Arg>) returns (end: nat, ghost t: string)
    requires at < limit <= str.Length && !Ends(f) && Reads(f, args, limit - at)
    modifies str
    ensures Steps(f, args, limit - at, t) && end == at + |t| && Wrote(old(str[..]), str[..], at, t)
  {
    end, t := StorePiece(str, at, limit, f, args);
  }

  /** `done` has been stored from `base`, and with the rest of the format it will make `goal`. */
  ghost predicate Stage(before: seq<char>, now: seq<char>, base: nat, done: string, f: string, args: seq<Arg>,
                        room: nat, goal: string)
  {
    && Wrote(before, now, base, done)
    && Reads(f, args, room) && done + Bounded(f, args, room) == goal
  }

  lemma FirstStage(s: seq<char>, base: nat, f: string, args: seq<Arg>, room: nat)
    requires base <= |s| && Reads(f, args, room)
    ensures Stage(s, s, base, "", f, args, room, Bounded(f, args, room))
  {
    assert "" + Bounded(f, args, room) == Bounded(f, args, room);
  }

  lemma LastStage(before: seq<char>, now: seq<char>, base: nat, done: string, f: string, args: seq<Arg>, room: nat,
                  goal: string)
    requires Stage(before, now, base, done, f, args, room, goal) && (Ends(f) || room == 0)
    ensures done == goal && Wrote(before, now, base, goal)
  {
    assert done + "" == done;
  }

  lemma NextStage(before: seq<char>, mid: seq<char>, now: seq<char>, base: nat, limit: nat, at: nat, end: nat,
                  done: string, t: string, f: string, args: seq<Arg>, goal: string)
    requires at == base + |done| <= limit && Stage(before, mid, base, done, f, args, limit - at, goal)
    requires Steps(f, args, limit - at, t) && end == at + |t| && Wrote(mid, now, at, t)
    ensures end <= limit && end == base + |done + t|
    ensures Stage(before, now, base, done + t, Rest(f), RestArgs(f, args), limit - end, goal)
  {
    WroteTwice(before, mid, now, base, done, t);
    NextText(done, t, Bounded(f, args, limit - at), Bounded(Rest(f), RestArgs(f, args), limit - end), goal);
  }

  lemma NextText(done: string, t: string, whole: string, later: string, goal: string)
    requires done + whole == goal && whole == t + later
    ensures (done + t) + later == goal
  {
    Regroup(done, t, later);
  }

  /** StoreNext, from one stage to the next. */
  method Continue(str: array<char>, base: nat, limit: nat, f: string, args: seq<Arg>, at: nat,
                  ghost before: seq<char>, ghost done: string, ghost goal: string)
    returns (end: nat, ghost done': string)
    requires at < limit <= str.Length && !Ends(f)
    requires at == base + |done| && Stage(before, str[..], base, done, f, args, limit - at, goal)
    modifies str
    ensures end == base + |done'| <= limit && HeadOk(f, args)
    ensures Stage(before, str[..], base, done', Rest(f), RestArgs(f, args), limit - end, goal)
  {
    ghost var t;
    ghost var mid := str[..];
    end, t := StoreNext(str, at, limit, f, args);
    NextStage(before, mid, str[..], base, limit, at, end, done, t, f, args, goal);
    done' := done + t;
  }

  /** The loop of vsnprintf, with room for `room` characters from `base`. */
  method StoreAll(str: array<char>, base: nat, room: nat, format: string, args: seq<Arg>) returns (end: nat)
    requires base + room <= str.Length && Reads(format, args, room)
    modifies str
    ensures var stored := Bounded(format, args, room);
            end == base + |stored| && Wrote(old(str[..]), str[..], base, stored)
  {
    ghost var before, goal, done := str[..], Bounded(format, args, room), "";
    var limit := base + room;
    var f, rest := format, args;
    end := base;
    FirstStage(before, base, f, rest, room);
    assert limit - end == room;
    while f != "" && end < limit
      invariant end == base + |done| <= limit
      invariant Stage(before, str[..], base, done, f, rest, limit - end, goal)
      decreases |f|
    {
      if f == "%" {
        break;
      }
      end, done := Continue(str, base, limit, f, rest, end, before, done, goal);
      f, rest := Rest(f), RestArgs(f, rest);
    }
    LastStage(before, str[..], base, done, f, rest, limit - end, goal);
  }

  /** vsnprintf into str[base..base+size): stores Bounded, terminates it, touches nothing else, and
      returns the number of characters stored. */
  method Vsnprintf(str: array<char>, base: nat, size: nat, format: string, args: seq<Arg>) returns (count: nat)
    requires base + size <= str.Length && '\0' !in format && (size > 0 ==> Reads(format, args, size - 1))
    modifies str
    ensures size == 0 ==> count == 0 && str[..] == old(str[..])
    ensures size > 0 ==>
              var stored := Bounded(format, args, size - 1);
              count == |stored| && Wrote(old(str[..]), str[..], base, stored + ['\0'])
  {
    if size == 0 {
      return 0;
    }
    if size == 1 {
      StoreChar(str, base, '\0');
      return 0;
    }
    ghost var before := str[..];
    var end := StoreAll(str, base, size - 1, format, args);
    ghost var mid := str[..];
    StoreChar(str, end, '\0');
    WroteTwice(before, mid, str[..], base, Bounded(format, args, size - 1), ['\0']);
    count := end - base;
  }

  lemma Regroup(a: string, b: string, c: string)
    ensures a + (b + c) == (a + b) + c
  {
  }
}
