/**
 * Decoding of a `traceparent` header (after section 3.2 of the W3C Trace
 * Context recommendation) as `AiLogger.SetOperationContext(header, name)` does
 * it: split on '-', keeping empty segments, demand exactly four segments, and
 * demand that the first (version) and last (flags) parse as hexadecimal 32-bit
 * integers. The trace-id and parent-id segments are taken as they are.
 */
module TraceParent {
  import opened Wrappers
  import opened Text
  import opened HexNumber

  /** Why a header was refused, in the order the checks are made. */
  datatype HeaderFault = WrongPartCount | InvalidVersion | InvalidFlags

  datatype TraceParentFields = TraceParentFields(version: int, traceId: string, parentId: string, flags: int)

  function Decode(header: string): (r: Result<TraceParentFields, HeaderFault>)
    ensures r == Failure(WrongPartCount) <==> |Split(header, '-')| != 4
    ensures r.Success? ==> '-' !in r.value.traceId && '-' !in r.value.parentId
    ensures r.Success? ==> -TwoTo31 <= r.value.version < TwoTo31 && -TwoTo31 <= r.value.flags < TwoTo31
  {
    var parts := Split(header, '-');
    SplitSegmentsFree(header, '-');
    if |parts| != 4 then Failure(WrongPartCount)
    else
      var version := ParseHexInt32(parts[0]);
      var flags := ParseHexInt32(parts[3]);
      if version.None? then Failure(InvalidVersion)
      else if flags.None? then Failure(InvalidFlags)
      else Success(TraceParentFields(version.value, parts[1], parts[2], flags.value))
  }

  /** The header a W3C-conforming caller sends: two lowercase hex digits at each end. */
  function Format(version: nat, traceId: string, parentId: string, flags: nat): string
    requires version < 256 && flags < 256
  {
    Hex2(version, false) + "-" + traceId + "-" + parentId + "-" + Hex2(flags, false)
  }

  lemma JoinFour(a: string, b: string, c: string, d: string, sep: char)
    ensures Join([a, b, c, d], sep) == a + [sep] + b + [sep] + c + [sep] + d
  {
    assert [a, b, c, d][1..] == [b, c, d];
    assert [b, c, d][1..] == [c, d];
    assert [c, d][1..] == [d];
    assert Join([c, d], sep) == c + [sep] + d;
    assert Join([b, c, d], sep) == b + [sep] + (c + [sep] + d);
    assert Join([a, b, c, d], sep) == a + [sep] + (b + [sep] + (c + [sep] + d));
  }

  lemma JoinOfFour(parts: seq<string>, sep: char)
    requires |parts| == 4
    ensures Join(parts, sep) == parts[0] + [sep] + parts[1] + [sep] + parts[2] + [sep] + parts[3]
  {
    assert parts == [parts[0], parts[1], parts[2], parts[3]];
    JoinFour(parts[0], parts[1], parts[2], parts[3], sep);
  }

  /** The part count is wrong exactly when the header does not hold three '-'. */
  lemma DecodePartCount(header: string)
    ensures Decode(header) == Failure(WrongPartCount) <==> multiset(header)['-'] != 3
  {
    SplitLength(header, '-');
  }

  /** An accepted header is exactly its four segments rejoined, and the ids hold no '-'. */
  lemma DecodeSegments(header: string)
    requires Decode(header).Success?
    ensures var parts, f := Split(header, '-'), Decode(header).value;
      && header == parts[0] + "-" + f.traceId + "-" + f.parentId + "-" + parts[3]
      && '-' !in f.traceId && '-' !in f.parentId
      && ParseHexInt32(parts[0]) == Some(f.version)
      && ParseHexInt32(parts[3]) == Some(f.flags)
  {
    var parts, f := Split(header, '-'), Decode(header).value;
    assert |parts| == 4 && f.traceId == parts[1] && f.parentId == parts[2];
    JoinSplit(header, '-');
    JoinOfFour(parts, '-');
  }

  /** Every conforming header with '-'-free ids decodes to the fields it was built from. */
  lemma DecodeFormat(version: nat, traceId: string, parentId: string, flags: nat)
    requires version < 256 && flags < 256
    requires '-' !in traceId && '-' !in parentId
    ensures Decode(Format(version, traceId, parentId, flags))
         == Success(TraceParentFields(version, traceId, parentId, flags))
  {
    var v, f := Hex2(version, false), Hex2(flags, false);
    var parts := [v, traceId, parentId, f];
    assert '-' !in v && '-' !in f;
    forall i | 0 <= i < 4 ensures '-' !in parts[i] { }
    SplitJoin(parts, '-');
    JoinFour(v, traceId, parentId, f, '-');
    assert Join(parts, '-') == Format(version, traceId, parentId, flags);
    Hex2RoundTrip(version, false);
    Hex2RoundTrip(flags, false);
  }

  /*
   * The sample header as one literal equals the concatenation `Format` builds,
   * split into three steps to keep each proof small.
   */
  lemma ExampleTraceId()
    ensures "00-" + "4bf92f3577b34da6a3ce929d0e0e4736" == "00-4bf92f3577b34da6a3ce929d0e0e4736"
  {
  }

  lemma ExampleHeaderHead()
    ensures "00" + "-" + "4bf92f3577b34da6a3ce929d0e0e4736" + "-" == "00-4bf92f3577b34da6a3ce929d0e0e4736-"
  {
    assert "00" + "-" == "00-";
    ExampleTraceId();
  }

  lemma ExampleHeaderTail()
    ensures "00-4bf92f3577b34da6a3ce929d0e0e4736-" + "00f067aa0ba902b7" + "-" + "01"
         == "00-4bf92f3577b34da6a3ce929d0e0e4736-00f067aa0ba902b7-01"
  {
    assert "00f067aa0ba902b7" + "-" + "01" == "00f067aa0ba902b7-01";
    assert "00-4bf92f3577b34da6a3ce929d0e0e4736-" + "00f067aa0ba902b7-01"
        == "00-4bf92f3577b34da6a3ce929d0e0e4736-00f067aa0ba902b7-01";
  }

  lemma ExampleHeaderIsFormatted()
    ensures Format(0, "4bf92f3577b34da6a3ce929d0e0e4736", "00f067aa0ba902b7", 1)
         == "00-4bf92f3577b34da6a3ce929d0e0e4736-00f067aa0ba902b7-01"
  {
    assert Hex2(0, false) == "00";
    assert Hex2(1, false) == "01";
    ExampleHeaderHead();
    ExampleHeaderTail();
  }

  /** The example header of the W3C recommendation. */
  lemma W3CExample()
    ensures Decode("00-4bf92f3577b34da6a3ce929d0e0e4736-00f067aa0ba902b7-01")
         == Success(TraceParentFields(0, "4bf92f3577b34da6a3ce929d0e0e4736", "00f067aa0ba902b7", 1))
  {
    ExampleHeaderIsFormatted();
    assert '-' !in "4bf92f3577b34da6a3ce929d0e0e4736";
    assert '-' !in "00f067aa0ba902b7";
    DecodeFormat(0, "4bf92f3577b34da6a3ce929d0e0e4736", "00f067aa0ba902b7", 1);
  }

  /** Three segments are refused. */
  lemma ThreePartsRefused()
    ensures Decode("00-abc-def") == Failure(WrongPartCount)
  {
    DecodePartCount("00-abc-def");
    assert multiset("00-abc-def")['-'] == 2;
  }

  /** A version segment that is not hexadecimal is refused before the flags are looked at. */
  lemma NonHexVersionRefused(traceId: string, parentId: string, flags: string)
    requires '-' !in traceId && '-' !in parentId && '-' !in flags
    ensures Decode("zz-" + traceId + "-" + parentId + "-" + flags) == Failure(InvalidVersion)
  {
    var parts := ["zz", traceId, parentId, flags];
    forall i | 0 <= i < 4 ensures '-' !in parts[i] { }
    SplitJoin(parts, '-');
    JoinFour("zz", traceId, parentId, flags, '-');
    assert Join(parts, '-') == "zz-" + traceId + "-" + parentId + "-" + flags;
    NonHexRejected("zz");
  }
}
