/**
 * The record parser of the V11 worker: a line `key;value` is cut at its first
 * `;`, and the value bytes are read as a signed fixed-point number in tenths
 * by a hand-written loop over `sign`, `intPart`, `fracPart` and `decimalSeen`.
 *
 * The loop validates nothing: every byte other than `.` is taken as the digit
 * `b - '0'` computed in uint8 (so it wraps), and all arithmetic is int32, so
 * it wraps too. Only the two slice operations can fail: a line without `;`
 * (IndexByte gives -1) and a line whose value part is empty (`valBytes[0]`).
 */
module RecordParser {
  import opened Bytes
  import opened Machine
  import opened Options

  datatype Record = Record(key: seq<byte>, value: int32)

  datatype ParseError = MissingSeparator | EmptyValue

  datatype ParseResult = Parsed(record: Record) | Malformed(error: ParseError)

  predicate IsDigit(b: byte) { ZERO <= b <= ZERO + 9 }

  predicate AllDigits(s: seq<byte>) { forall i :: 0 <= i < |s| ==> IsDigit(s[i]) }

  /** `int32(b - '0')`, where the subtraction is on uint8 and wraps. */
  function DigitOf(b: byte): (d: int)
    ensures 0 <= d < 256
    ensures IsDigit(b) ==> d == b - ZERO
    ensures !IsDigit(b) ==> d >= 10
  {
    (b - ZERO) % 256
  }

  /** The loop's locals after some prefix of the digits. */
  datatype Scan = Scan(intPart: int, fracPart: int, decimalSeen: bool)

  const Start := Scan(0, 0, false)

  /** One iteration of the loop body. */
  function Step(st: Scan, b: byte): Scan
  {
    if b == DOT then st.(decimalSeen := true)
    else if !st.decimalSeen then st.(intPart := Wrap32(st.intPart * 10 + DigitOf(b)))
    else st.(fracPart := DigitOf(b))
  }

  /** The loop run over all of bs. */
  function ScanBytes(bs: seq<byte>): Scan
    decreases |bs|
  {
    if bs == [] then Start else Step(ScanBytes(bs[..|bs| - 1]), bs[|bs| - 1])
  }

  /** One more byte of a slice is one more step. */
  lemma ScanSnoc(bs: seq<byte>, lo: nat, i: nat)
    requires lo <= i < |bs|
    ensures ScanBytes(bs[lo..i + 1]) == Step(ScanBytes(bs[lo..i]), bs[i])
  {
    assert bs[lo..i + 1][..i - lo] == bs[lo..i];
  }

  /** The value in tenths that the loop produces for non-empty value bytes. */
  function ValueOf(val: seq<byte>): (v: int32)
    requires val != []
  {
    var negative := val[0] == MINUS;
    var st := ScanBytes(if negative then val[1..] else val);
    Wrap32((if negative then -1 else 1) * (st.intPart * 10 + st.fracPart))
  }

  /** What the worker makes of one line. */
  function ParseLine(line: seq<byte>): (r: ParseResult)
    ensures r == Malformed(MissingSeparator) <==> SEMI !in line
    ensures r == Malformed(EmptyValue) <==>
              line != [] && line[|line| - 1] == SEMI && SEMI !in line[..|line| - 1]
    ensures r.Parsed? ==>
              var k := |r.record.key|;
              && k + 1 < |line| && line[..k] == r.record.key && line[k] == SEMI
              && SEMI !in r.record.key && r.record.value == ValueOf(line[k + 1..])
  {
    var idx := IndexByte(line, SEMI);
    if idx == -1 then Malformed(MissingSeparator)
    else if idx == |line| - 1 then Malformed(EmptyValue)
    else Parsed(Record(line[..idx], ValueOf(line[idx + 1..])))
  }

  /**
   * The lines of one chunk parsed in order: all their records, or None when
   * any line is malformed (the worker panics on it and the run aborts).
   */
  function ParseLines(lines: seq<seq<byte>>): (r: Option<seq<Record>>)
    ensures r.Some? <==> forall i :: 0 <= i < |lines| ==> ParseLine(lines[i]).Parsed?
    ensures r.Some? ==> |r.value| == |lines|
    ensures r.Some? ==> forall i :: 0 <= i < |lines| ==> r.value[i] == ParseLine(lines[i]).record
    decreases |lines|
  {
    if lines == [] then Some([])
    else
      match ParseLines(lines[..|lines| - 1])
      case None => None
      case Some(rs) =>
        match ParseLine(lines[|lines| - 1])
        case Parsed(rec) => Some(rs + [rec])
        case Malformed(_) => None
  }

  /** Parsing distributes over concatenation of line lists. */
  lemma ParseLinesAppend(a: seq<seq<byte>>, b: seq<seq<byte>>)
    ensures ParseLines(a + b) ==
              if ParseLines(a).Some? && ParseLines(b).Some?
              then Some(ParseLines(a).value + ParseLines(b).value) else None
  {
    if ParseLines(a).Some? && ParseLines(b).Some? {
      ParseLinesAppendParsed(a, b);
    } else {
      ParseLinesAppendMalformed(a, b);
    }
  }

  lemma {:induction false} ParseLinesAppendParsed(a: seq<seq<byte>>, b: seq<seq<byte>>)
    requires ParseLines(a).Some? && ParseLines(b).Some?
    ensures ParseLines(a + b) == Some(ParseLines(a).value + ParseLines(b).value)
    decreases |b|
  {
    if b == [] {
      assert a + b == a;
      assert ParseLines(b) == Some([]);
      assert ParseLines(a).value + [] == ParseLines(a).value;
    } else {
      var b', last := b[..|b| - 1], b[|b| - 1];
      assert (a + b)[..|a + b| - 1] == a + b';
      assert (a + b)[|a + b| - 1] == last;
      ParseLinesAppendParsed(a, b');
      var ra, rb' := ParseLines(a).value, ParseLines(b').value;
      var rec := ParseLine(last).record;
      assert ParseLines(b).value == rb' + [rec];
      assert ParseLines(a + b).value == (ra + rb') + [rec];
      SnocAssoc(ra, rb', rec);
    }
  }

  lemma ParseLinesAppendMalformed(a: seq<seq<byte>>, b: seq<seq<byte>>)
    requires ParseLines(a).None? || ParseLines(b).None?
    ensures ParseLines(a + b).None?
  {
    var ab := a + b;
    if ParseLines(a).None? {
      var i :| 0 <= i < |a| && !ParseLine(a[i]).Parsed?;
      assert ab[i] == a[i];
    } else {
      var i :| 0 <= i < |b| && !ParseLine(b[i]).Parsed?;
      assert ab[|a| + i] == b[i];
    }
  }

  /** Parsing one more line of a list whose prefix parsed. */
  lemma ParseLinesExtend(lines: seq<seq<byte>>, i: int, rs: seq<Record>)
    requires 0 <= i < |lines| && ParseLines(lines[..i]) == Some(rs)
    ensures ParseLine(lines[i]).Parsed? ==>
              ParseLines(lines[..i + 1]) == Some(rs + [ParseLine(lines[i]).record])
    ensures ParseLine(lines[i]).Malformed? ==> ParseLines(lines) == None
  {
    var next := lines[..i + 1];
    assert next[..i] == lines[..i] && next[i] == lines[i];
  }

  /** The parsing half of the worker loop body, as written. */
  method ParseRecord(line: seq<byte>) returns (r: ParseResult)
    ensures r == ParseLine(line)
  {
    var idx := IndexByte(line, SEMI);
    if idx == -1 {
      return Malformed(MissingSeparator);
    }
    var keyBytes: seq<byte> := line[..idx];
    var valBytes: seq<byte> := line[idx + 1..];
    if |valBytes| == 0 {
      return Malformed(EmptyValue);
    }

    var sign := 1;
    var intPart, fracPart := 0, 0;
    var decimalSeen := false;
    var numStart: nat;
    if valBytes[0] == MINUS {
      sign := -1;
      numStart := 1;
    } else {
      numStart := 0;
    }

    for i := numStart to |valBytes|
      invariant Scan(intPart, fracPart, decimalSeen) == ScanBytes(valBytes[numStart..i])
    {
      ScanSnoc(valBytes, numStart, i);
      ghost var st := Scan(intPart, fracPart, decimalSeen);
      if valBytes[i] == DOT {
        decimalSeen := true;
        assert Scan(intPart, fracPart, decimalSeen) == Step(st, valBytes[i]);
        continue;
      }
      var digit := (valBytes[i] - ZERO) % 256;
      assert digit == DigitOf(valBytes[i]);
      if !decimalSeen {
        intPart := Wrap32(intPart * 10 + digit);
      } else {
        fracPart := digit;
      }
      assert Scan(intPart, fracPart, decimalSeen) == Step(st, valBytes[i]);
    }
    assert valBytes[numStart..|valBytes|] == valBytes[numStart..];
    assert valBytes[numStart..] == if valBytes[0] == MINUS then valBytes[1..] else valBytes;
    assert Scan(intPart, fracPart, decimalSeen) == ScanBytes(valBytes[numStart..]);
    var value := Wrap32(sign * (intPart * 10 + fracPart));
    assert value == ValueOf(valBytes);
    r := Parsed(Record(keyBytes, value));
  }

  /******** What a line is cut into ********/

  /** A line without `;` fails: `lineBytes[:idx]` with idx == -1 is out of bounds. */
  lemma NoSeparatorFails(line: seq<byte>)
    requires SEMI !in line
    ensures ParseLine(line) == Malformed(MissingSeparator)
  {
  }

  /**
   * Every other line is key ++ ";" ++ value with no `;` in key: the key is the
   * bytes before the first `;` and the value everything after it, further `;`
   * included. An empty value fails (`valBytes[0]`).
   */
  lemma SplitsAtFirstSeparator(key: seq<byte>, val: seq<byte>)
    requires SEMI !in key
    ensures ParseLine(key + [SEMI] + val) ==
              if val == [] then Malformed(EmptyValue) else Parsed(Record(key, ValueOf(val)))
  {
    var line := key + [SEMI] + val;
    IndexByteAt(key, val, SEMI);
    assert line[..|key|] == key && line[|key| + 1..] == val;
  }

  /******** What the value loop computes ********/

  /** The natural number a string of decimal digits denotes. */
  function NatOf(ds: seq<byte>): nat
    requires AllDigits(ds)
    decreases |ds|
  {
    if ds == [] then 0 else NatOf(ds[..|ds| - 1]) * 10 + (ds[|ds| - 1] - ZERO)
  }

  /** The byte prefix that carries a sign. */
  function SignPrefix(negative: bool): seq<byte> { if negative then [MINUS] else [] }

  /** Over the integer digits, intPart accumulates their number, wrapped to int32. */
  lemma {:induction false} ScanIntegerDigits(ds: seq<byte>)
    requires AllDigits(ds)
    ensures ScanBytes(ds) == Scan(Wrap32(NatOf(ds)), 0, false)
    decreases |ds|
  {
    if ds == [] {
      Wrap32Identity(0);
    } else {
      var init := ds[..|ds| - 1];
      var d := ds[|ds| - 1] - ZERO;
      assert AllDigits(init);
      ScanIntegerDigits(init);
      calc {
        Wrap32(Wrap32(NatOf(init)) * 10 + d);
      ==  { Wrap32Add(Wrap32(NatOf(init)) * 10, d); }
        Wrap32(Wrap32(Wrap32(NatOf(init)) * 10) + d);
      ==  { Wrap32Mul(NatOf(init), 10); }
        Wrap32(Wrap32(NatOf(init) * 10) + d);
      ==  { Wrap32Add(NatOf(init) * 10, d); }
        Wrap32(NatOf(ds));
      }
    }
  }

  /** Wrapping intPart before the final multiply-add changes nothing modulo 2^32. */
  lemma WrapFinal(s: int, n: int, f: int)
    ensures Wrap32(s * (Wrap32(n) * 10 + f)) == Wrap32(s * (n * 10 + f))
  {
    var k := WrapOffset(n, TWO_POW_32);
    assert s * (Wrap32(n) * 10 + f) == s * (n * 10 + f) + (s * k * 10) * TWO_POW_32;
    Wrap32Shift(s * (n * 10 + f), s * k * 10);
  }

  /**
   * For value bytes of the shape -?[0-9]+\.[0-9], the result is the decimal's
   * value times ten, sign * (intPart * 10 + fracPart), reduced to int32.
   * `-` counts as a sign only at offset 0: elsewhere it is not a digit.
   */
  lemma {:induction false} DecimalValue(negative: bool, ds: seq<byte>, f: byte)
    requires ds != [] && AllDigits(ds) && IsDigit(f)
    ensures ValueOf(SignPrefix(negative) + ds + [DOT, f]) ==
              Wrap32((if negative then -1 else 1) * (NatOf(ds) * 10 + (f - ZERO)))
  {
    var val := SignPrefix(negative) + ds + [DOT, f];
    assert val[0] == if negative then MINUS else ds[0];
    assert (if negative then val[1..] else val) == ds + [DOT, f];
    assert (ds + [DOT, f])[..|ds| + 1] == ds + [DOT];
    assert (ds + [DOT])[..|ds|] == ds;
    ScanIntegerDigits(ds);
    assert ScanBytes(ds + [DOT]) == Scan(Wrap32(NatOf(ds)), 0, true);
    assert ScanBytes(ds + [DOT, f]) == Scan(Wrap32(NatOf(ds)), f - ZERO, true);
    WrapFinal(if negative then -1 else 1, NatOf(ds), f - ZERO);
  }

  /** When the decimal fits in int32 (as every temperature does), the value is exact. */
  lemma DecimalValueExact(negative: bool, ds: seq<byte>, f: byte)
    requires ds != [] && AllDigits(ds) && IsDigit(f)
    requires IsInt32((if negative then -1 else 1) * (NatOf(ds) * 10 + (f - ZERO)))
    ensures ValueOf(SignPrefix(negative) + ds + [DOT, f]) ==
              (if negative then -1 else 1) * (NatOf(ds) * 10 + (f - ZERO))
  {
    DecimalValue(negative, ds, f);
    Wrap32Identity((if negative then -1 else 1) * (NatOf(ds) * 10 + (f - ZERO)));
  }

  /**
   * A digit after the point overwrites fracPart instead of accumulating: of
   * several digits after the point only the last one counts.
   */
  lemma LastFractionDigitWins(head: seq<byte>, fs: seq<byte>)
    requires fs != [] && AllDigits(fs)
    ensures ValueOf(head + [DOT] + fs) == ValueOf(head + [DOT, fs[|fs| - 1]])
  {
    var long, short := head + [DOT] + fs, head + [DOT, fs[|fs| - 1]];
    assert long[0] == short[0];
    var negative := long[0] == MINUS;
    var h := if negative then (head + [DOT])[1..] else head + [DOT];
    assert h != [] && h[|h| - 1] == DOT;
    assert (if negative then long[1..] else long) == h + fs;
    assert (if negative then short[1..] else short) == h + [fs[|fs| - 1]];
    FractionTail(h, fs);
    FractionTail(h, [fs[|fs| - 1]]);
  }

  /** After a point the state is the one after the point plus the last digit. */
  lemma {:induction false} FractionTail(head: seq<byte>, fs: seq<byte>)
    requires head != [] && head[|head| - 1] == DOT && fs != [] && AllDigits(fs)
    ensures ScanBytes(head + fs) == ScanBytes(head).(decimalSeen := true, fracPart := DigitOf(fs[|fs| - 1]))
    decreases |fs|
  {
    var s := head + fs;
    assert s[..|s| - 1] == head + fs[..|fs| - 1];
    if |fs| == 1 {
      assert s[..|s| - 1] == head;
      assert ScanBytes(head).decimalSeen by {
        assert head[..|head| - 1] + [DOT] == head;
      }
    } else {
      assert AllDigits(fs[..|fs| - 1]);
      FractionTail(head, fs[..|fs| - 1]);
    }
  }

  /******** Round trip with the one-decimal rendering ********/

  /** Decimal digits of n, most significant first, with no leading zeros. */
  function DigitsOf(n: nat): (ds: seq<byte>)
    ensures ds != [] && AllDigits(ds)
    decreases n
  {
    if n < 10 then [ZERO + n] else DigitsOf(n / 10) + [ZERO + n % 10]
  }

  lemma {:induction false} NatOfDigitsOf(n: nat)
    ensures NatOf(DigitsOf(n)) == n
    decreases n
  {
    if n >= 10 {
      var ds := DigitsOf(n);
      assert ds[..|ds| - 1] == DigitsOf(n / 10);
      NatOfDigitsOf(n / 10);
    }
  }

  /**
   * The text `%.1f` prints for float64(v)/10: an optional `-`, the integer
   * digits and one fractional digit.
   */
  function RenderTenths(v: int): (text: seq<byte>)
  {
    var a := if v < 0 then -v else v;
    SignPrefix(v < 0) + DigitsOf(a / 10) + [DOT, ZERO + a % 10]
  }

  /** Parsing the rendering of an int32 number of tenths gives the number back. */
  lemma RenderRoundTrip(v: int32)
    ensures RenderTenths(v) != [] && ValueOf(RenderTenths(v)) == v
  {
    var a: int := if v < 0 then -(v as int) else v;
    NatOfDigitsOf(a / 10);
    DecimalValueExact(v < 0, DigitsOf(a / 10), ZERO + a % 10);
  }
}
