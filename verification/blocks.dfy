/** The block record of simpleChain.js and the text form of its timestamp. */
module Blocks {

  /** The JavaScript value held in a block's `time` field: the constructor
      stores the number 0, an append stores a decimal string. */
  datatype Time = Number(n: int) | Text(s: string)

  /** A block, with its fields in the order the constructor creates them
      (the order JSON serialisation, and so the digest, sees them in). */
  datatype Block = Block(
    hash: string,
    height: nat,
    body: string,
    time: Time,
    previousBlockHash: string
  )

  /** SHA-256 over the JSON text of a block, rendered as hex. It is kept
      uninterpreted: every operation that hashes receives it as a parameter. */
  type Digest = Block -> string

  const GenesisBody: string := "First Block - Genesis"

  /** `new Block(data)`: a draft whose hash and previous-hash are the empty
      sentinel and whose height and time are still zero. */
  function NewBlock(data: string): (b: Block)
    ensures Unsealed(b) && b.previousBlockHash == ""
    ensures b.body == data && b.height == 0 && b.time == Number(0)
  {
    Block("", 0, data, Number(0), "")
  }

  /** A draft that has not been hashed yet. */
  predicate Unsealed(b: Block) {
    b.hash == ""
  }

  /** The block with its hash field cleared: the content the digest covers. */
  function Cleared(b: Block): Block {
    b.(hash := "")
  }

  /** The stored hash is the digest of the block's hash-less content. */
  predicate Sealed(digest: Digest, b: Block) {
    b.hash == digest(Cleared(b))
  }

  // ---------------------------------------------------------------------
  // Timestamps: `new Date().getTime().toString().slice(0, -3)`

  function DigitChar(d: nat): (c: char)
    requires d < 10
    ensures '0' <= c <= '9'
    ensures (c as int) - ('0' as int) == d
  {
    (('0' as int) + d) as char
  }

  predicate IsDigits(s: string) {
    forall i :: 0 <= i < |s| ==> '0' <= s[i] <= '9'
  }

  /** `n.toString()` for a non-negative integer: canonical decimal digits,
      no sign and no leading zero. */
  function Decimal(n: nat): (s: string)
    ensures |s| >= 1 && IsDigits(s)
    ensures s[0] == '0' ==> n == 0
    ensures n < 10 <==> |s| == 1
    decreases n
  {
    if n < 10 then [DigitChar(n)] else Decimal(n / 10) + [DigitChar(n % 10)]
  }

  /** Reads a string of decimal digits back as a number. */
  function ParseDecimal(s: string): (n: nat)
    requires IsDigits(s)
    decreases |s|
  {
    if s == [] then 0
    else ParseDecimal(s[..|s| - 1]) * 10 + ((s[|s| - 1] as int) - ('0' as int))
  }

  /** `s.slice(0, -k)`: everything but the last k characters, or the empty
      string when s is shorter than that. For k = 0 the end index is -0,
      which JavaScript reads as 0, so the result is empty too. */
  function DropLast(s: string, k: nat): (r: string)
    ensures k > 0 && |s| >= k ==> |r| == |s| - k
    ensures k == 0 || |s| < k ==> r == []
    ensures r <= s
  {
    if k == 0 then [] else s[..if |s| >= k then |s| - k else 0]
  }

  /** The `time` text an append stores for a clock reading in milliseconds. */
  function UnixSecondsText(nowMillis: nat): string {
    DropLast(Decimal(nowMillis), 3)
  }

  /** Decimal and ParseDecimal are inverse. */
  lemma {:induction false} ParseDecimalInvertsDecimal(n: nat)
    ensures ParseDecimal(Decimal(n)) == n
    decreases n
  {
    var s := Decimal(n);
    if n >= 10 {
      ParseDecimalInvertsDecimal(n / 10);
      assert s[..|s| - 1] == Decimal(n / 10);
    }
  }

  /** Dropping the last digit of a number of two or more digits leaves the
      decimal text of its tenth. */
  lemma DropOneDigit(n: nat)
    requires n >= 10
    ensures DropLast(Decimal(n), 1) == Decimal(n / 10)
  {
    var s := Decimal(n);
    assert s == Decimal(n / 10) + [DigitChar(n % 10)];
    assert s[..|s| - 1] == Decimal(n / 10);
  }

  /** The stored time is the decimal text of the whole seconds elapsed, or
      the empty string for a clock reading below one second. */
  lemma {:induction false} UnixSecondsTextIsFloor(nowMillis: nat)
    ensures nowMillis >= 1000 ==> UnixSecondsText(nowMillis) == Decimal(nowMillis / 1000)
    ensures nowMillis < 1000 ==> UnixSecondsText(nowMillis) == ""
    ensures IsDigits(UnixSecondsText(nowMillis))
  {
    var n := nowMillis;
    var s := Decimal(n);
    if n >= 1000 {
      DropOneDigit(n);
      DropOneDigit(n / 10);
      DropOneDigit(n / 100);
      assert n / 10 / 10 == n / 100;
      assert n / 100 / 10 == n / 1000;
      assert DropLast(s, 3) == DropLast(DropLast(DropLast(s, 1), 1), 1);
    } else if n >= 100 {
      assert s == Decimal(n / 10) + [DigitChar(n % 10)];
      assert |Decimal(n / 10)| == 2;
    } else if n >= 10 {
      assert s == Decimal(n / 10) + [DigitChar(n % 10)];
    }
  }

  /** Reading the stored time back gives the whole seconds of the clock
      reading; the milliseconds are dropped. */
  lemma UnixSecondsTextReadsBack(nowMillis: nat)
    ensures ParseDecimal(UnixSecondsText(nowMillis)) == nowMillis / 1000
  {
    UnixSecondsTextIsFloor(nowMillis);
    if nowMillis >= 1000 {
      ParseDecimalInvertsDecimal(nowMillis / 1000);
    }
  }
}
