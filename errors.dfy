/**
 * ComfySQL_Exception: the single error type, carrying the driver's error
 * number and message and a context (a fixed word or the failing template).
 * Its message is `<errno==errstr> [[context]]`.
 */
module Errors {
  import opened Wrappers

  /** The exception: what `errno()` and `errstr()` return, and `getMessage()`. */
  datatype ComfyException = ComfyException(errno: int, errstr: string, message: string)

  /** The three values the message is built from. */
  datatype MessageParts = MessageParts(errno: int, errstr: string, context: string)

  // ---------------------------------------------------------------------
  // PHP's conversion of an integer to a string, and its inverse.

  predicate IsDigit(c: char) {
    '0' <= c <= '9'
  }

  function Digit(d: nat): (c: char)
    requires d < 10
    ensures IsDigit(c)
  {
    ('0' as int + d) as char
  }

  function DigitValue(c: char): (d: nat)
    requires IsDigit(c)
    ensures d < 10
  {
    (c as int - '0' as int) as nat
  }

  /** Every character is a decimal digit. */
  predicate AllDigits(s: string) {
    forall k :: 0 <= k < |s| ==> IsDigit(s[k])
  }

  /** Decimal digits of n, most significant first, without leading zeros. */
  function NatToString(n: nat): (s: string)
    ensures |s| > 0 && AllDigits(s)
  {
    if n < 10 then [Digit(n)] else NatToString(n / 10) + [Digit(n % 10)]
  }

  /** PHP's string conversion of an integer: a minus sign before the digits
      of a negative number. */
  function IntToString(n: int): string {
    if n < 0 then "-" + NatToString(-n) else NatToString(n)
  }

  /** The number a non-empty string of digits denotes. */
  function DigitsValue(s: string): nat
    requires AllDigits(s)
  {
    if s == [] then 0 else DigitsValue(s[..|s| - 1]) * 10 + DigitValue(s[|s| - 1])
  }

  /** Reads back an optionally signed decimal integer. */
  function ParseInt(s: string): Option<int> {
    if |s| > 0 && s[0] == '-' then
      if |s| > 1 && AllDigits(s[1..]) then Some(-(DigitsValue(s[1..]) as int)) else None
    else
      if |s| > 0 && AllDigits(s) then Some(DigitsValue(s)) else None
  }

  lemma {:induction false} NatToStringRoundTrip(n: nat)
    ensures DigitsValue(NatToString(n)) == n
  {
    if n >= 10 {
      NatToStringRoundTrip(n / 10);
      var s := NatToString(n);
      assert s[..|s| - 1] == NatToString(n / 10);
    }
  }

  /** The decimal text of an integer reads back as that integer. */
  lemma IntToStringRoundTrip(n: int)
    ensures ParseInt(IntToString(n)) == Some(n)
  {
    if n < 0 {
      var digits := NatToString(-n);
      NatToStringRoundTrip(-n);
      assert ParseInt("-" + digits) == Some(n) by {
        assert ("-" + digits)[0] == '-' && ("-" + digits)[1..] == digits;
      }
    } else {
      var digits := NatToString(n);
      NatToStringRoundTrip(n);
      assert ParseInt(digits) == Some(n) by {
        assert IsDigit(digits[0]);
      }
    }
  }

  // ---------------------------------------------------------------------
  // The message and the constructor.

  /** The text that closes the error text in a message. */
  const Sep: string := "> [["

  /** The message: `<`, the number, `==`, the error text, `> [[`, the context
      and `]]`, concatenated in that order. */
  function Message(errno: int, errstr: string, context: string): string {
    "<" + IntToString(errno) + "==" + errstr + Sep + context + "]]"
  }

  /** `new ComfySQL_Exception(errno, errstr, context)`. */
  function NewException(errno: int, errstr: string, context: string): (e: ComfyException)
    ensures e.errno == errno && e.errstr == errstr
    ensures !ContainsSep(errstr) ==> ParseMessage(e.message) == Some(MessageParts(errno, errstr, context))
  {
    var e := ComfyException(errno, errstr, Message(errno, errstr, context));
    if !ContainsSep(errstr) then MessageRoundTrip(errno, errstr, context); e else e
  }

  /** An error text that holds `> [[` makes the message ambiguous: the text
      after that occurrence may belong to the error text or to the context. */
  lemma MessageAmbiguous(errno: int, x: string, y: string, z: string)
    ensures Message(errno, x + Sep + y, z) == Message(errno, x, y + Sep + z)
  {
    var n := "<" + IntToString(errno) + "==";
    assert Message(errno, x + Sep + y, z) == n + x + Sep + y + Sep + z + "]]";
    assert Message(errno, x, y + Sep + z) == n + x + Sep + y + Sep + z + "]]";
  }

  /** Index of the first c in s, or |s| when there is none. */
  function IndexOf(s: string, c: char): (i: nat)
    ensures i <= |s|
    ensures forall k :: 0 <= k < i ==> s[k] != c
    ensures i < |s| ==> s[i] == c
  {
    if s == [] then 0 else if s[0] == c then 0 else 1 + IndexOf(s[1..], c)
  }

  /** `> [[` starts at position i of s. */
  predicate SepAt(s: string, i: nat) {
    i + |Sep| <= |s| && s[i..i + |Sep|] == Sep
  }

  /** `> [[` occurs somewhere in s. */
  predicate ContainsSep(s: string) {
    exists i :: 0 <= i < |s| && SepAt(s, i)
  }

  /** Index of the first `> [[` in s, or |s| when there is none. */
  function IndexOfSep(s: string): (i: nat)
    ensures i == |s| || SepAt(s, i)
  {
    if |s| < |Sep| then |s|
    else if s[..|Sep|] == Sep then 0
    else
      var j := IndexOfSep(s[1..]);
      assert j < |s| - 1 ==> s[1..][j..j + |Sep|] == s[j + 1..j + 1 + |Sep|];
      1 + j
  }

  /** The inverse of Message: the number, the error text and the context,
      when the error text holds no `> [[`. */
  function ParseMessage(m: string): Option<MessageParts> {
    if |m| == 0 || m[0] != '<' then None else ParseAfterOpen(m[1..])
  }

  /** Reads `errno==` and hands the rest on. */
  function ParseAfterOpen(rest: string): Option<MessageParts> {
    var i := IndexOf(rest, '=');
    if i + 1 >= |rest| || rest[i + 1] != '=' then None
    else
      match ParseInt(rest[..i])
      case None => None
      case Some(errno) => ParseAfterNumber(errno, rest[i + 2..])
  }

  /** Reads `errstr> [[context]]`, the error text ending at the first `> [[`. */
  function ParseAfterNumber(errno: int, tail: string): Option<MessageParts> {
    var j := IndexOfSep(tail);
    if j == |tail| then None
    else
      var close := tail[j + |Sep|..];
      if |close| < 2 || close[|close| - 2..] != "]]" then None
      else Some(MessageParts(errno, tail[..j], close[..|close| - 2]))
  }

  lemma {:induction false} IndexOfSplit(x: string, c: char, y: string)
    requires c !in x
    ensures IndexOf(x + [c] + y, c) == |x|
    decreases |x|
  {
    if x != [] {
      assert (x + [c] + y)[1..] == x[1..] + [c] + y;
      IndexOfSplit(x[1..], c, y);
    }
  }

  /** The first `> [[` of x + `> [[` + y is the one after x, when x holds
      none: the separator cannot start inside x and end inside itself. */
  lemma {:induction false} IndexOfSepSplit(x: string, y: string)
    requires !ContainsSep(x)
    ensures IndexOfSep(x + Sep + y) == |x|
    decreases |x|
  {
    var s := x + Sep + y;
    if x == [] {
      assert s[..|Sep|] == Sep;
    } else {
      assert s[..|Sep|] != Sep by {
        if |x| >= |Sep| {
          assert !SepAt(x, 0);
          assert s[..|Sep|] == x[..|Sep|];
        } else {
          assert s[|x|] == '>' && Sep[|x|] != '>';
        }
      }
      assert !ContainsSep(x[1..]) by {
        forall i | 0 <= i < |x[1..]| && SepAt(x[1..], i) ensures false {
          assert x[1..][i..i + |Sep|] == x[i + 1..i + 1 + |Sep|];
          assert SepAt(x, i + 1);
        }
      }
      assert s[1..] == x[1..] + Sep + y;
      IndexOfSepSplit(x[1..], y);
    }
  }

  lemma AfterNumberRoundTrip(errno: int, errstr: string, context: string)
    requires !ContainsSep(errstr)
    ensures ParseAfterNumber(errno, errstr + Sep + context + "]]") == Some(MessageParts(errno, errstr, context))
  {
    var tail := errstr + Sep + (context + "]]");
    assert errstr + Sep + context + "]]" == tail;
    IndexOfSepSplit(errstr, context + "]]");
    assert tail[..|errstr|] == errstr;
    var close := tail[|errstr| + |Sep|..];
    assert close == context + "]]";
    assert close[|close| - 2..] == "]]";
    assert close[..|close| - 2] == context;
  }

  lemma AfterOpenRoundTrip(errno: int, errstr: string, context: string)
    requires !ContainsSep(errstr)
    ensures ParseAfterOpen(IntToString(errno) + "==" + errstr + Sep + context + "]]")
         == Some(MessageParts(errno, errstr, context))
  {
    var num := IntToString(errno);
    var tail := errstr + Sep + context + "]]";
    var rest := num + "==" + errstr + Sep + context + "]]";
    assert rest == num + ['='] + ("=" + tail);
    assert IndexOf(rest, '=') == |num| by {
      assert '=' !in num by {
        if errno < 0 { assert num == "-" + NatToString(-errno); }
      }
      IndexOfSplit(num, '=', "=" + tail);
    }
    assert rest[..|num|] == num;
    assert rest[|num| + 2..] == tail;
    IntToStringRoundTrip(errno);
    assert ParseAfterNumber(errno, tail) == Some(MessageParts(errno, errstr, context)) by {
      AfterNumberRoundTrip(errno, errstr, context);
    }
  }

  /** The message determines the number, the error text and the context it
      was built from, whenever the error text holds no `> [[`. */
  lemma MessageRoundTrip(errno: int, errstr: string, context: string)
    requires !ContainsSep(errstr)
    ensures ParseMessage(Message(errno, errstr, context)) == Some(MessageParts(errno, errstr, context))
  {
    var m := Message(errno, errstr, context);
    assert m[1..] == IntToString(errno) + "==" + errstr + Sep + context + "]]";
    AfterOpenRoundTrip(errno, errstr, context);
  }
}
