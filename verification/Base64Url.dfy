/** Unpadded base64url (section 5 of RFC 4648), as `base64.RawURLEncoding`
    reads and writes it: carriage returns and line feeds are skipped on
    decoding, and unused trailing bits are not checked. */
module Base64Url {
  import opened Prelude

  function Symbol(i: nat): (c: char)
    requires i < 64
    ensures IndexOf(c) == Some(i) && c != '.' && c != '\r' && c != '\n'
  {
    if i < 26 then ('A' as int + i) as char
    else if i < 52 then ('a' as int + (i - 26)) as char
    else if i < 62 then ('0' as int + (i - 52)) as char
    else if i == 62 then '-'
    else '_'
  }

  function IndexOf(c: char): (r: Option<nat>)
    ensures r.Some? ==> r.value < 64
  {
    if 'A' <= c <= 'Z' then Some((c as int - 'A' as int) as nat)
    else if 'a' <= c <= 'z' then Some((c as int - 'a' as int + 26) as nat)
    else if '0' <= c <= '9' then Some((c as int - '0' as int + 52) as nat)
    else if c == '-' then Some(62)
    else if c == '_' then Some(63)
    else None
  }

  function Encode(b: seq<Byte>): (s: string)
    ensures forall c | c in s :: c != '.' && c != '\r' && c != '\n'
  {
    if |b| == 0 then []
    else if |b| == 1 then [Symbol(b[0] / 4), Symbol(b[0] % 4 * 16)]
    else if |b| == 2 then [Symbol(b[0] / 4), Symbol(b[0] % 4 * 16 + b[1] / 16), Symbol(b[1] % 16 * 4)]
    else [Symbol(b[0] / 4), Symbol(b[0] % 4 * 16 + b[1] / 16), Symbol(b[1] % 16 * 4 + b[2] / 64), Symbol(b[2] % 64)]
         + Encode(b[3..])
  }

  function Strip(s: string): string
  {
    if s == [] then []
    else (if s[0] == '\r' || s[0] == '\n' then [] else [s[0]]) + Strip(s[1..])
  }

  function First(c0: nat, c1: nat): Byte
    requires c0 < 64 && c1 < 64
  {
    c0 * 4 + c1 / 16
  }

  function Second(c1: nat, c2: nat): Byte
    requires c1 < 64 && c2 < 64
  {
    c1 % 16 * 16 + c2 / 4
  }

  function Third(c2: nat, c3: nat): Byte
    requires c2 < 64 && c3 < 64
  {
    c2 % 4 * 64 + c3
  }

  function DecodeGroups(s: string): Option<seq<Byte>>
  {
    if |s| == 0 then Some([])
    else if |s| == 1 then None
    else
      match (IndexOf(s[0]), IndexOf(s[1]))
      case (Some(c0), Some(c1)) =>
        if |s| == 2 then Some([First(c0, c1)])
        else (
          match IndexOf(s[2])
          case None => None
          case Some(c2) =>
            if |s| == 3 then Some([First(c0, c1), Second(c1, c2)])
            else
              match (IndexOf(s[3]), DecodeGroups(s[4..]))
              case (Some(c3), Some(rest)) => Some([First(c0, c1), Second(c1, c2), Third(c2, c3)] + rest)
              case _ => None)
      case _ => None
  }

  function Decode(s: string): Option<seq<Byte>>
  {
    DecodeGroups(Strip(s))
  }

  lemma {:induction false} StripClean(s: string)
    requires forall c | c in s :: c != '\r' && c != '\n'
    ensures Strip(s) == s
  {
    if s != [] {
      assert s[0] in s;
      assert forall c | c in s[1..] :: c in s;
      StripClean(s[1..]);
    }
  }

  lemma SixBits(b0: Byte, b1: Byte, b2: Byte)
    ensures First(b0 / 4, b0 % 4 * 16 + b1 / 16) == b0
    ensures Second(b0 % 4 * 16 + b1 / 16, b1 % 16 * 4 + b2 / 64) == b1
    ensures Third(b1 % 16 * 4 + b2 / 64, b2 % 64) == b2
  {}

  /** Reading one full group of four symbols. */
  lemma DecodeGroup(c0: nat, c1: nat, c2: nat, c3: nat, tail: string)
    requires c0 < 64 && c1 < 64 && c2 < 64 && c3 < 64 && DecodeGroups(tail).Some?
    ensures DecodeGroups([Symbol(c0), Symbol(c1), Symbol(c2), Symbol(c3)] + tail)
            == Some([First(c0, c1), Second(c1, c2), Third(c2, c3)] + DecodeGroups(tail).value)
  {
    hide Symbol, IndexOf, First, Second, Third;
    var s := [Symbol(c0), Symbol(c1), Symbol(c2), Symbol(c3)] + tail;
    assert s[0] == Symbol(c0) && s[1] == Symbol(c1) && s[2] == Symbol(c2) && s[3] == Symbol(c3) && s[4..] == tail;
  }

  lemma {:induction false} DecodeGroupsEncode(b: seq<Byte>)
    ensures DecodeGroups(Encode(b)) == Some(b)
  {
    hide Symbol, IndexOf, First, Second, Third;
    if |b| == 1 {
      SixBits(b[0], 0, 0);
      assert First(b[0] / 4, b[0] % 4 * 16) == b[0];
      assert b == [b[0]];
    } else if |b| == 2 {
      SixBits(b[0], b[1], 0);
      assert Second(b[0] % 4 * 16 + b[1] / 16, b[1] % 16 * 4) == b[1];
      assert b == [b[0], b[1]];
    } else if |b| > 2 {
      SixBits(b[0], b[1], b[2]);
      DecodeGroupsEncode(b[3..]);
      DecodeGroup(b[0] / 4, b[0] % 4 * 16 + b[1] / 16, b[1] % 16 * 4 + b[2] / 64, b[2] % 64, Encode(b[3..]));
      assert b == [b[0], b[1], b[2]] + b[3..];
    }
  }

  /** Decoding undoes encoding, for every byte string. */
  lemma DecodeEncode(b: seq<Byte>)
    ensures Decode(Encode(b)) == Some(b)
  {
    StripClean(Encode(b));
    DecodeGroupsEncode(b);
  }

  // ---------------------------------------------------------------- the format

  /** The alphabet: A to Z, a to z, 0 to 9, minus and underscore; nothing else is
      read. */
  lemma AlphabetMeans(c: char, i: nat)
    requires i < 64
    ensures Symbol(0) == 'A' && Symbol(25) == 'Z' && Symbol(26) == 'a' && Symbol(51) == 'z'
    ensures Symbol(52) == '0' && Symbol(61) == '9' && Symbol(62) == '-' && Symbol(63) == '_'
    ensures i !in {25, 51, 61, 62, 63} ==> Symbol(i + 1) as int == Symbol(i) as int + 1
    ensures IndexOf(c) == Some(i) <==> c == Symbol(i)
  {}

  /** One byte is two symbols with its 8 bits first and then zero bits. */
  lemma EncodeOne(b: seq<Byte>) returns (c0: nat, c1: nat)
    requires |b| == 1
    ensures c0 < 64 && c1 < 64 && Encode(b) == [Symbol(c0), Symbol(c1)]
    ensures 64 * c0 + c1 == 16 * (b[0] as int)
  {
    c0, c1 := b[0] / 4, b[0] % 4 * 16;
  }

  /** Two bytes are three symbols with their 16 bits first and then zero bits. */
  lemma EncodeTwo(b: seq<Byte>) returns (c0: nat, c1: nat, c2: nat)
    requires |b| == 2
    ensures c0 < 64 && c1 < 64 && c2 < 64 && Encode(b) == [Symbol(c0), Symbol(c1), Symbol(c2)]
    ensures 4096 * c0 + 64 * c1 + c2 == 1024 * (b[0] as int) + 4 * (b[1] as int)
  {
    c0, c1, c2 := b[0] / 4, b[0] % 4 * 16 + b[1] / 16, b[1] % 16 * 4;
  }

  /** Three bytes are four symbols with the same 24 bits, most significant first,
      and the rest is encoded after them. */
  lemma EncodeThree(b: seq<Byte>) returns (c0: nat, c1: nat, c2: nat, c3: nat)
    requires |b| >= 3
    ensures c0 < 64 && c1 < 64 && c2 < 64 && c3 < 64
    ensures Encode(b) == [Symbol(c0), Symbol(c1), Symbol(c2), Symbol(c3)] + Encode(b[3..])
    ensures 262_144 * c0 + 4096 * c1 + 64 * c2 + c3 == 65_536 * (b[0] as int) + 256 * (b[1] as int) + (b[2] as int)
  {
    hide Symbol;
    c0, c1, c2, c3 := b[0] / 4, b[0] % 4 * 16 + b[1] / 16, b[1] % 16 * 4 + b[2] / 64, b[2] % 64;
  }

  ghost predicate Readable(s: string)
  {
    forall c | c in s :: IndexOf(c).Some?
  }

  lemma ReadableSplit(a: string, b: string)
    ensures Readable(a + b) <==> Readable(a) && Readable(b)
  {
    hide IndexOf;
    assert forall c | c in a :: c in a + b;
    assert forall c | c in b :: c in a + b;
  }

  lemma GroupReadable(s: string)
    requires |s| >= 4
    ensures DecodeGroups(s).Some? <==> Readable(s[..4]) && DecodeGroups(s[4..]).Some?
  {
    hide IndexOf, First, Second, Third;
    var g := s[..4];
    assert s[0] == g[0] && s[1] == g[1] && s[2] == g[2] && s[3] == g[3];
    assert g[0] in g && g[1] in g && g[2] in g && g[3] in g;
    assert forall c | c in g :: c == g[0] || c == g[1] || c == g[2] || c == g[3];
  }

  lemma LastGroupReadable(s: string)
    requires |s| < 4
    ensures DecodeGroups(s).Some? <==> |s| != 1 && Readable(s)
  {
    hide IndexOf, First, Second, Third;
    assert forall i | 0 <= i < |s| :: s[i] in s;
  }

  lemma {:induction false} GroupsReadable(s: string)
    ensures DecodeGroups(s).Some? <==> |s| % 4 != 1 && Readable(s)
  {
    hide DecodeGroups, Readable;
    if |s| >= 4 {
      GroupReadable(s);
      GroupsReadable(s[4..]);
      ReadableSplit(s[..4], s[4..]);
      assert s == s[..4] + s[4..];
    } else {
      LastGroupReadable(s);
    }
  }

  /** Exactly the texts that are decoded: without their line breaks they consist
      of symbols, and their length leaves no single symbol over. */
  lemma DecodesIff(s: string)
    ensures Decode(s).Some? <==> |Strip(s)| % 4 != 1 && Readable(Strip(s))
  {
    GroupsReadable(Strip(s));
  }

  lemma {:induction false} StripConcat(a: string, b: string)
    ensures Strip(a + b) == Strip(a) + Strip(b)
  {
    if a == [] {
      assert a + b == b;
    } else {
      assert (a + b)[0] == a[0] && (a + b)[1..] == a[1..] + b;
      StripConcat(a[1..], b);
    }
  }

  lemma StripOne(c: char)
    ensures Strip([c]) == if c == '\r' || c == '\n' then [] else [c]
  {
    assert [c][1..] == [] && Strip([]) == [];
  }

  /** Line breaks are skipped wherever they stand; nothing else is. */
  lemma LineBreaksSkipped(a: string, b: string, c: char)
    ensures c == '\r' || c == '\n' ==> Decode(a + [c] + b) == Decode(a + b)
    ensures c != '\r' && c != '\n' ==> Strip(a + [c] + b) == Strip(a) + [c] + Strip(b)
  {
    hide DecodeGroups, Strip;
    StripConcat(a + [c], b);
    StripConcat(a, [c]);
    StripConcat(a, b);
    StripOne(c);
    assert Strip(a) + [] == Strip(a);
  }

  /** Bits of a last symbol that belong to no byte are not looked at. */
  lemma TrailingBitsIgnored(c0: nat, c1: nat, c1': nat)
    requires c0 < 64 && c1 < 64 && c1' < 64 && c1 / 16 == c1' / 16
    ensures DecodeGroups([Symbol(c0), Symbol(c1)]) == DecodeGroups([Symbol(c0), Symbol(c1')])
            == Some([4 * c0 + c1 / 16])
  {
    hide Symbol, IndexOf;
  }
}
