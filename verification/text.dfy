/** String helpers shared by the parser and the handlers: joining words,
    Rust's `String::pop`, decimal formatting (`{}` of an integer) and
    `str::parse::<usize>`. */
module Text {
  import opened Wrappers

  /** The pieces joined by single spaces, with no leading or trailing space. */
  function JoinSpaced(pieces: seq<string>): string
  {
    if |pieces| == 0 then ""
    else if |pieces| == 1 then pieces[0]
    else pieces[0] + " " + JoinSpaced(pieces[1..])
  }

  /** What the source's accumulation loops build before their final `pop`:
      every piece followed by one space. */
  function SpaceTerminated(pieces: seq<string>): (s: string)
    ensures |pieces| > 0 <==> |s| > 0
    ensures |pieces| > 0 ==> s[|s| - 1] == ' '
  {
    if |pieces| == 0 then "" else pieces[0] + " " + SpaceTerminated(pieces[1..])
  }

  /** `String::pop`, keeping the string: drops the last character, if any. */
  function Pop(s: string): string
  {
    if |s| == 0 then s else s[..|s| - 1]
  }

  lemma {:induction false} PopAppend(a: string, b: string)
    requires |b| > 0
    ensures Pop(a + b) == a + Pop(b)
  {
    assert (a + b)[..|a + b| - 1] == a + b[..|b| - 1];
  }

  /** Accumulating "piece + space" and popping once yields the pieces joined
      by single spaces; with no pieces it yields the empty string. */
  lemma {:induction false} PopSpaceTerminated(pieces: seq<string>)
    ensures Pop(SpaceTerminated(pieces)) == JoinSpaced(pieces)
  {
    if |pieces| == 0 {
    } else if |pieces| == 1 {
      assert SpaceTerminated(pieces) == pieces[0] + " ";
      assert (pieces[0] + " ")[..|pieces[0]|] == pieces[0];
    } else {
      var rest := SpaceTerminated(pieces[1..]);
      PopSpaceTerminated(pieces[1..]);
      PopAppend(pieces[0] + " ", rest);
    }
  }

  /** The pieces concatenated in order. */
  function Concat(pieces: seq<string>): string
  {
    if |pieces| == 0 then "" else pieces[0] + Concat(pieces[1..])
  }

  lemma {:induction false} ConcatAppend(a: seq<string>, b: seq<string>)
    ensures Concat(a + b) == Concat(a) + Concat(b)
  {
    if |a| == 0 {
      assert a + b == b;
    } else {
      assert (a + b)[0] == a[0];
      assert (a + b)[1..] == a[1..] + b;
      ConcatAppend(a[1..], b);
    }
  }

  /** Proof plumbing, not properties of the bot: regrouping a concatenation,
      stated over plain strings. Dafny proves these unaided; they exist
      because in place, next to the definitions of the pieces, the same
      step costs the solver far more. */
  lemma {:induction false} Regroup3(head: string, a: string, b: string, c: string)
    ensures head + (a + b + c) == head + a + b + c
  {
  }

  lemma {:induction false} Regroup4(head: string, a: string, b: string, c: string, d: string)
    ensures head + (a + b + c + d) == head + a + b + c + d
  {
  }

  /** Proof plumbing as above: a string put after a header keeps its tail. */
  lemma {:induction false} TailAfterHeader(head: string, s: string, k: nat)
    requires k <= |s|
    ensures (head + s)[..|head|] == head
    ensures (head + s)[|head + s| - k..] == s[|s| - k..]
  {
  }

  /** Concatenation splits around any one piece. */
  lemma {:induction false} ConcatSplitAt(pieces: seq<string>, i: nat)
    requires i < |pieces|
    ensures Concat(pieces) == Concat(pieces[..i]) + pieces[i] + Concat(pieces[i + 1..])
  {
    var pre, piece, post := pieces[..i], pieces[i], pieces[i + 1..];
    assert pieces[..i + 1] == pre + [piece];
    assert pieces == pieces[..i + 1] + post;
    ConcatAppend(pre + [piece], post);
    ConcatAppend(pre, [piece]);
    assert Concat([piece]) == piece by {
      assert [piece][1..] == [];
    }
    var x, z := Concat(pre), Concat(post);
    assert Concat(pre + [piece]) == x + piece;
    assert Concat(pieces) == (x + piece) + z;
  }

  predicate IsDigit(c: char)
  {
    '0' <= c <= '9'
  }

  predicate AllDigits(s: string)
  {
    forall i :: 0 <= i < |s| ==> IsDigit(s[i])
  }

  function DigitValue(c: char): nat
    requires IsDigit(c)
  {
    (c as int) - ('0' as int)
  }

  function DigitChar(d: nat): (c: char)
    requires d < 10
    ensures IsDigit(c) && DigitValue(c) == d
  {
    (('0' as int) + d) as char
  }

  /** Decimal rendering of a natural number, as Rust's `{}` prints it:
      digits only, and a leading `0` only for zero itself. */
  function NatToDecimal(n: nat): (s: string)
    ensures |s| > 0 && AllDigits(s)
    ensures s[0] == '0' <==> n == 0
  {
    if n < 10 then [DigitChar(n)] else NatToDecimal(n / 10) + [DigitChar(n % 10)]
  }

  /** The number a string of decimal digits denotes. */
  function DecimalValue(s: string): nat
    requires AllDigits(s)
  {
    if |s| == 0 then 0 else 10 * DecimalValue(s[..|s| - 1]) + DigitValue(s[|s| - 1])
  }

  lemma {:induction false} DecimalValueOfNatToDecimal(n: nat)
    ensures DecimalValue(NatToDecimal(n)) == n
  {
    if n >= 10 {
      var s := NatToDecimal(n);
      assert s[..|s| - 1] == NatToDecimal(n / 10);
      DecimalValueOfNatToDecimal(n / 10);
    }
  }

  /** Largest `usize` on a 64-bit target. */
  const USIZE_MAX: nat := 0xFFFF_FFFF_FFFF_FFFF

  /** `str::parse::<usize>` on a 64-bit target: an optional leading `+`,
      then one or more ASCII digits whose value fits in a `usize`. */
  function ParseUsize(s: string): (r: Option<nat>)
    ensures r.Some? ==> r.value <= USIZE_MAX
    ensures r.Some? ==> |s| > 0 && (IsDigit(s[0]) || s[0] == '+')
  {
    var digits := if 0 < |s| && s[0] == '+' then s[1..] else s;
    if |digits| == 0 || !AllDigits(digits) then None
    else if DecimalValue(digits) <= USIZE_MAX then Some(DecimalValue(digits))
    else None
  }

  /** Parsing the decimal rendering of a `usize` gives the number back. */
  lemma {:induction false} ParseUsizeOfDecimal(n: nat)
    requires n <= USIZE_MAX
    ensures ParseUsize(NatToDecimal(n)) == Some(n)
  {
    DecimalValueOfNatToDecimal(n);
  }
}
