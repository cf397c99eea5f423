/**
 * Device identifiers: the first identifier of a day (`new_board_id`) and
 * the successor of the last identifier the ERP knows (`get_board_id`).
 * An identifier is the product name, the two-digit hardware version, the
 * manufacturer id, the date as YYMMDD and a four-digit sequence number.
 */
module BoardId {
  import opened Wrappers
  import opened Text
  import opened Numerals

  datatype CalendarDate = CalendarDate(year: int, month: int, day: int)

  /** What `date.today()` can return. */
  type Date = d: CalendarDate | 1 <= d.year <= 9999 && 1 <= d.month <= 12 && 1 <= d.day <= 31
    witness CalendarDate(2000, 1, 1)

  /** A number below 100 as two decimal digits, as `strftime` writes its fields. */
  function TwoDigits(n: nat): string
    requires n < 100
  {
    [DigitChar(n / 10), DigitChar(n % 10)]
  }

  /** `today.strftime("%y%m%d")`. */
  function DateStamp(today: Date): string
  {
    TwoDigits(today.year % 100) + TwoDigits(today.month) + TwoDigits(today.day)
  }

  lemma TwoDigitsSpec(n: nat)
    requires n < 100
    ensures |TwoDigits(n)| == 2 && AllAsciiDigits(TwoDigits(n)) && Value(TwoDigits(n), Decimal) == n
  {
    DigitRoundTrip(n / 10);
    DigitRoundTrip(n % 10);
    ValueOfDecimalPair(TwoDigits(n));
  }

  /** The stamp is six ASCII digits: the year within its century, the month, the day. */
  lemma DateStampSpec(today: Date)
    ensures |DateStamp(today)| == 6 && AllAsciiDigits(DateStamp(today))
    ensures Value(DateStamp(today)[..2], Decimal) == today.year % 100
    ensures Value(DateStamp(today)[2..4], Decimal) == today.month
    ensures Value(DateStamp(today)[4..], Decimal) == today.day
  {
    var s := DateStamp(today);
    TwoDigitsSpec(today.year % 100);
    TwoDigitsSpec(today.month);
    TwoDigitsSpec(today.day);
    assert s[..2] == TwoDigits(today.year % 100);
    assert s[2..4] == TwoDigits(today.month);
    assert s[4..] == TwoDigits(today.day);
  }

  /** The sequence number of the first identifier of a day. */
  const FirstSequence: string := "0000"

  /**
   * `new_board_id()`. Indexing the second `-`-separated field raises
   * `IndexError` when the product version holds no `-`: `None` here.
   */
  function NewBoardId(productVersion: string, manufacturerId: string, today: Date): Option<string>
  {
    var fields := Split(productVersion, '-');
    if |fields| < 2 then None
    else
      var product := fields[0];
      var version := ZFill(Split(fields[1], '.')[0], 2);
      Some(product + version + manufacturerId + DateStamp(today) + FirstSequence)
  }

  /** The product name: what precedes the first `-`. */
  function ProductName(productVersion: string): string
  {
    TakeUntil(productVersion, {'-'})
  }

  /** The major version: what follows the first `-`, up to the next `-` or `.`. */
  function MajorVersion(productVersion: string): string
  {
    TakeUntil(AfterFirst(productVersion, '-'), {'-', '.'})
  }

  /**
   * A fresh identifier exists exactly when the product version holds a `-`;
   * it is the product name, the major version zero-filled to two places,
   * the manufacturer id, the date stamp and `0000`.
   */
  lemma NewBoardIdSpec(productVersion: string, manufacturerId: string, today: Date)
    ensures NewBoardId(productVersion, manufacturerId, today).Some? <==> '-' in productVersion
    ensures '-' in productVersion ==> NewBoardId(productVersion, manufacturerId, today) == Some(
      ProductName(productVersion) + ZFill(MajorVersion(productVersion), 2) + manufacturerId
      + DateStamp(today) + FirstSequence)
  {
    SplitMany(productVersion, '-');
    SplitFirst(productVersion, '-');
    if '-' in productVersion {
      SplitSecond(productVersion, '-');
      var second := Split(productVersion, '-')[1];
      SplitFirst(second, '.');
      TakeUntilTwice(AfterFirst(productVersion, '-'), '-', '.');
      assert {'-', '.'} == {'.', '-'};
    }
  }

  /** The parts, read back from the string: the product name contains no `-` and ends where the first `-` stands. */
  lemma ProductNameSpec(productVersion: string)
    requires '-' in productVersion
    ensures '-' !in ProductName(productVersion)
    ensures productVersion == ProductName(productVersion) + "-" + AfterFirst(productVersion, '-')
  {
    TakeUntilPrefix(productVersion, {'-'});
    AroundFirst(productVersion, '-');
  }

  /** The version field is at least two characters, a plain number keeping its value. */
  lemma VersionFieldSpec(productVersion: string)
    ensures |ZFill(MajorVersion(productVersion), 2)| >= 2
    ensures AllAsciiDigits(MajorVersion(productVersion)) ==>
      AllAsciiDigits(ZFill(MajorVersion(productVersion), 2))
      && Value(ZFill(MajorVersion(productVersion), 2), Decimal) == Value(MajorVersion(productVersion), Decimal)
  {
    var v := MajorVersion(productVersion);
    if AllAsciiDigits(v) {
      if |v| > 0 {
        assert IsAsciiDigit(v[0]);
      }
      ZFillUnsigned(v, 2);
      var k := |ZFill(v, 2)| - |v|;
      ValueZeros(k, v, Decimal);
      var z := ZFill(v, 2);
      assert z == Zeros(k) + v;
      assert forall i :: k <= i < |z| ==> z[i] == v[i - k];
    }
  }

  /** Every fresh identifier ends with the date stamp and the sequence number `0000`. */
  lemma NewBoardIdEnding(productVersion: string, manufacturerId: string, today: Date, id: string)
    requires NewBoardId(productVersion, manufacturerId, today) == Some(id)
    ensures |id| >= 10 && id[|id| - 10..] == DateStamp(today) + FirstSequence
    ensures AllAsciiDigits(id[|id| - 10..])
  {
    DateStampSpec(today);
    var tail := DateStamp(today) + FirstSequence;
    assert AllAsciiDigits(tail) by {
      assert forall i :: 6 <= i < 10 ==> tail[i] == FirstSequence[i - 6];
    }
  }

  /** `s[:-4]`: all but the last four characters, nothing when there are fewer. */
  function SequenceHead(s: string): string
  {
    if |s| >= 4 then s[..|s| - 4] else ""
  }

  /** `s[-4:]`: the last four characters, all of `s` when there are fewer. */
  function SequenceTail(s: string): string
  {
    if |s| >= 4 then s[|s| - 4..] else s
  }

  /** `s[:-4] + str(int(s[-4:]) + 1).zfill(4)`; `None` where `int` raises. */
  function NextBoardId(s: string): Option<string>
  {
    match ParseInt(SequenceTail(s))
    case None => None
    case Some(n) => Some(SequenceHead(s) + ZFill(IntToString(n + 1), 4))
  }

  /** Head and tail cut the name in two. */
  lemma SequenceSplit(s: string)
    ensures SequenceHead(s) + SequenceTail(s) == s
  {
  }

  /** A zero-filled decimal numeral is ASCII digits with the number's value. */
  lemma PaddedDecimal(m: nat, width: int)
    ensures AllAsciiDigits(ZFill(ToBase(m, Decimal), width))
    ensures Value(ZFill(ToBase(m, Decimal), width), Decimal) == m
  {
    var digits := ToBase(m, Decimal);
    ValueOfToBase(m, Decimal);
    DecimalDigits(m);
    assert IsAsciiDigit(digits[0]);
    ZFillUnsigned(digits, width);
    var t := ZFill(digits, width);
    var k := |t| - |digits|;
    ValueZeros(k, digits, Decimal);
    assert t == Zeros(k) + digits;
    assert forall i :: k <= i < |t| ==> t[i] == digits[i - k];
  }

  /** The four-place successor of a four-digit sequence number; `9999` is followed by `10000`. */
  lemma SuccessorDigits(n: nat)
    requires n < 10000
    ensures var t := ZFill(IntToString(n + 1), 4);
      |t| >= 4 && AllAsciiDigits(t) && Value(t, Decimal) == n + 1
      && (|t| == 4 <==> n < 9999) && (n == 9999 ==> t == "10000")
  {
    PaddedDecimal(n + 1, 4);
    if n < 9999 {
      assert Pow10(4) == 10000;
      ToBaseDecimalShort(n + 1, 4);
    } else {
      TenThousand();
    }
  }

  /**
   * For a previous identifier ending in four ASCII digits, the successor
   * keeps everything before them and replaces them by four ASCII digits
   * denoting one more, or by `10000` after `9999`.
   */
  lemma NextBoardIdSpec(s: string)
    requires |s| >= 4 && AllAsciiDigits(s[|s| - 4..])
    ensures NextBoardId(s).Some?
    ensures var next := NextBoardId(s).value; var n := Value(s[|s| - 4..], Decimal);
      |next| >= |s| && next[..|s| - 4] == s[..|s| - 4]
      && AllAsciiDigits(next[|s| - 4..]) && Value(next[|s| - 4..], Decimal) == n + 1
      && (|next| == |s| <==> n < 9999)
      && (n == 9999 ==> next[|s| - 4..] == "10000")
  {
    var tail := s[|s| - 4..];
    var n := Value(tail, Decimal);
    ParseUnsigned(tail);
    ValueBelowPow10(tail);
    assert Pow10(4) == 10000;
    SuccessorDigits(n);
    var t := ZFill(IntToString(n + 1), 4);
    var next := SequenceHead(s) + t;
    assert NextBoardId(s) == Some(next);
    assert next[..|s| - 4] == s[..|s| - 4];
    assert next[|s| - 4..] == t;
  }

  /** The successor of the seventh board of 1 January 2025. */
  lemma NextBoardIdExample()
    ensures NextBoardId("APPB01XX2501010007") == Some("APPB01XX2501010008")
  {
    var s := "APPB01XX2501010007";
    assert SequenceTail(s) == "0007";
    assert SequenceHead(s) == "APPB01XX250101";
    assert Value("0007", Decimal) == 7 by {
      assert "0007"[..3] == "000";
      assert "000"[..2] == "00";
      assert "00"[..1] == "0";
      assert "0"[..0] == "";
    }
    ParseUnsigned("0007");
    assert IntToString(8) == "8";
    assert ZFill("8", 4) == "0008" by {
      assert Zeros(3) == "000";
    }
    assert ParseInt(SequenceTail(s)) == Some(7);
    assert NextBoardId(s) == Some(SequenceHead(s) + ZFill(IntToString(8), 4));
    assert "APPB01XX250101" + "0008" == "APPB01XX2501010008";
  }

  /** A tail of the form `-ddd` is read as a negative number, so the "successor" counts down. */
  lemma NextBoardIdNegativeTail()
    ensures NextBoardId("AB-005") == Some("AB-004")
  {
    assert SequenceTail("AB-005") == "-005";
    assert SequenceHead("AB-005") == "AB";
    assert "-005"[1..] == "005";
    assert Value("005", Decimal) == 5 by {
      assert "005"[..2] == "00";
      assert "00"[..1] == "0";
      assert "0"[..0] == "";
    }
    assert ParseInt("-005") == Some(-5);
    assert IntToString(-4) == "-4";
    assert ZFill("-4", 4) == "-004" by {
      assert Zeros(2) == "00";
    }
    assert NextBoardId("AB-005") == Some(SequenceHead("AB-005") + ZFill(IntToString(-4), 4));
    assert "AB" + "-004" == "AB-004";
  }

  /** A tail that is not a number has no successor. */
  lemma NextBoardIdLetters()
    ensures NextBoardId("APPB01XX250101abcd") == None
  {
    assert SequenceTail("APPB01XX250101abcd") == "abcd";
    assert !IsAsciiDigit("abcd"[0]);
  }

  /** What the ERP's device query gave: no answer, no usable previous record, or a previous name. */
  datatype DeviceQuery = Unreachable | NoPrevious | Previous(name: string)

  /** How `get_board_id` ends. */
  datatype Allocation =
    | Allocated(id: string)   // returned, and stored as the current identifier
    | NoneReturned            // an empty previous name: `None`, the current identifier untouched
    | ServerExit              // `make_req` gave up and exited
    | BadProductVersion       // the fallback itself raised `IndexError`

  /**
   * `get_board_id()`: the successor of a non-empty previous name; the fresh
   * identifier when reading the reply raised (no record, or a name whose
   * last four characters are not a number).
   */
  function AllocateBoardId(productVersion: string, manufacturerId: string, today: Date, reply: DeviceQuery): Allocation
  {
    if reply.Unreachable? then ServerExit
    else if reply.Previous? && |reply.name| == 0 then NoneReturned
    else
      var successor := if reply.Previous? then NextBoardId(reply.name) else None;
      if successor.Some? then Allocated(successor.value)
      else match NewBoardId(productVersion, manufacturerId, today)
        case Some(id) => Allocated(id)
        case None => BadProductVersion
  }

  /** A network failure ends the run: there is no fallback to a fresh identifier. */
  lemma AllocateUnreachable(productVersion: string, manufacturerId: string, today: Date)
    ensures AllocateBoardId(productVersion, manufacturerId, today, Unreachable) == ServerExit
  {
  }

  /**
   * An empty previous name gives `None`: no fresh identifier, and the
   * current one is not replaced.
   */
  lemma AllocateEmptyName(productVersion: string, manufacturerId: string, today: Date)
    ensures AllocateBoardId(productVersion, manufacturerId, today, Previous("")) == NoneReturned
  {
  }

  /**
   * A non-empty previous name with a numeric tail gives its successor,
   * whatever the product version; the fallback is not consulted.
   */
  lemma AllocateSuccessor(productVersion: string, manufacturerId: string, today: Date, name: string)
    requires |name| >= 4 && AllAsciiDigits(name[|name| - 4..])
    ensures AllocateBoardId(productVersion, manufacturerId, today, Previous(name)).Allocated?
    ensures var id := AllocateBoardId(productVersion, manufacturerId, today, Previous(name)).id;
      id[..|name| - 4] == name[..|name| - 4]
      && Value(id[|name| - 4..], Decimal) == Value(name[|name| - 4..], Decimal) + 1
  {
    NextBoardIdSpec(name);
  }

  /**
   * Without a usable previous record, or when the previous name's tail is
   * not a number, the identifier is the day's first one, ending in the
   * date stamp and `0000`; a product version without `-` makes the
   * fallback itself fail.
   */
  lemma AllocateFallback(productVersion: string, manufacturerId: string, today: Date, reply: DeviceQuery)
    requires reply.NoPrevious? || (reply.Previous? && |reply.name| > 0 && ParseInt(SequenceTail(reply.name)).None?)
    ensures var a := AllocateBoardId(productVersion, manufacturerId, today, reply);
      ('-' in productVersion ==>
        (a.Allocated? && Some(a.id) == NewBoardId(productVersion, manufacturerId, today)
         && a.id[|a.id| - 10..] == DateStamp(today) + FirstSequence))
      && ('-' !in productVersion ==> a == BadProductVersion)
  {
    NewBoardIdSpec(productVersion, manufacturerId, today);
    if '-' in productVersion {
      NewBoardIdEnding(productVersion, manufacturerId, today, NewBoardId(productVersion, manufacturerId, today).value);
    }
  }

  lemma SampleProductVersion()
    ensures ProductName("APPB-1.0") == "APPB" && MajorVersion("APPB-1.0") == "1"
  {
    var r := "1.0";
    var pv := "APPB" + "-" + r;
    assert "APPB-1.0" == pv;
    assert pv[1..] == "PPB-" + r;
    assert ("PPB-" + r)[1..] == "PB-" + r;
    assert ("PB-" + r)[1..] == "B-" + r;
    assert ("B-" + r)[1..] == "-" + r;
    assert ("-" + r)[1..] == r;
    assert r[1..] == ".0";
  }

  lemma SampleDate()
    ensures DateStamp(CalendarDate(2025, 1, 1)) == "250101"
  {
  }

  /** The fresh identifier of an `APPB` board, major version 1, from manufacturer `XX`, on 1 January 2025. */
  lemma SampleFreshId(pv: string)
    requires '-' in pv && ProductName(pv) == "APPB" && MajorVersion(pv) == "1"
    ensures NewBoardId(pv, "XX", CalendarDate(2025, 1, 1)) == Some("APPB01XX2501010000")
  {
    NewBoardIdSpec(pv, "XX", CalendarDate(2025, 1, 1));
    SampleDate();
    assert ZFill("1", 2) == "01" by {
      assert Zeros(1) == "0";
    }
    assert NewBoardId(pv, "XX", CalendarDate(2025, 1, 1)) == Some("APPB" + "01" + "XX" + "250101" + FirstSequence);
    assert "APPB" + "01" + "XX" + "250101" + "0000" == "APPB01XX2501010000";
  }

  /** The first identifier of the day of a jig for product version `APPB-1.0`. */
  lemma NewBoardIdExample()
    ensures NewBoardId("APPB-1.0", "XX", CalendarDate(2025, 1, 1)) == Some("APPB01XX2501010000")
  {
    SampleProductVersion();
    assert "APPB-1.0"[4] == '-';
    SampleFreshId("APPB-1.0");
  }
}
