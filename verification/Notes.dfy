/** The printed form of a deposit note, and parsing it. */
module Notes {
  import opened Wrappers
  import opened MachineInts
  import opened Amounts
  import opened Text
  import SignedWindows

  /** The secret material: 31 bytes each. */
  datatype Note = Note(nullifier: seq<byte>, secret: seq<byte>) {
    predicate Valid() { |nullifier| == 31 && |secret| == 31 }

    function Preimage(): seq<byte> { nullifier + secret }
  }

  datatype NoteString = NoteString(note: Note, symbol: string, amount: string, chainId: u64) {
    /** The fields the separator must not occur in. */
    predicate DashFree() { '-' !in symbol && '-' !in amount }
  }

  datatype NoteError = InvalidFormat | InvalidChainId | InvalidHex

  // ---------- hexadecimal ----------

  function HexChar(d: nat): char
    requires d < 16
  {
    ['0', '1', '2', '3', '4', '5', '6', '7', '8', '9', 'a', 'b', 'c', 'd', 'e', 'f'][d]
  }

  function HexValue(c: char): Option<nat> {
    if '0' <= c <= '9' then Some(c as int - '0' as int)
    else if 'a' <= c <= 'f' then Some(c as int - 'a' as int + 10)
    else if 'A' <= c <= 'F' then Some(c as int - 'A' as int + 10)
    else None
  }

  lemma HexValueBound(c: char)
    ensures HexValue(c).Some? ==> HexValue(c).value < 16
  {
  }

  function HexEncode(bytes: seq<byte>): string {
    if bytes == [] then [] else [HexChar(bytes[0] / 16), HexChar(bytes[0] % 16)] + HexEncode(bytes[1..])
  }

  function HexDecode(s: string): Option<seq<byte>> {
    if s == [] then Some([])
    else if |s| == 1 then None
    else
      HexValueBound(s[0]);
      HexValueBound(s[1]);
      match (HexValue(s[0]), HexValue(s[1]), HexDecode(s[2..]))
      case (Some(high), Some(low), Some(rest)) => Some([16 * high + low] + rest)
      case _ => None
  }

  lemma HexDigits(b: byte)
    ensures HexValue(HexChar(b / 16)) == Some(b / 16) && HexValue(HexChar(b % 16)) == Some(b % 16)
    ensures 16 * (b / 16) + b % 16 == b
  {
  }

  /** Two characters decode to the byte they encode, before whatever the rest decodes to. */
  lemma DecodePair(x: char, y: char, high: nat, low: nat, rest: string)
    requires HexValue(x) == Some(high) && HexValue(y) == Some(low) && HexDecode(rest).Some?
    ensures high < 16 && low < 16
    ensures HexDecode([x, y] + rest) == Some([16 * high + low] + HexDecode(rest).value)
  {
    HexValueBound(x);
    HexValueBound(y);
    var s := [x, y] + rest;
    assert s[2..] == rest;
  }

  lemma {:induction false} HexRoundTrip(bytes: seq<byte>)
    ensures HexDecode(HexEncode(bytes)) == Some(bytes)
  {
    if bytes != [] {
      HexRoundTrip(bytes[1..]);
      HexDigits(bytes[0]);
      DecodePair(HexChar(bytes[0] / 16), HexChar(bytes[0] % 16), bytes[0] / 16, bytes[0] % 16, HexEncode(bytes[1..]));
      assert [bytes[0]] + bytes[1..] == bytes;
    }
  }

  // ---------- numbers ----------

  /** Rust's `str::parse::<u64>`: an optional plus sign, then digits whose number fits. */
  function ParseU64(s: string): Option<u64> {
    var digits := if s != [] && s[0] == '+' then s[1..] else s;
    if digits == [] || !AllDigits(digits) || Value(digits) >= 0x1_0000_0000_0000_0000 then None else Some(Value(digits))
  }

  lemma ParseDigits(n: u64)
    ensures ParseU64(Digits(n)) == Some(n)
  {
    DigitsValue(n);
  }

  // ---------- splitting ----------

  /** Rust's `splitn`: at most `n` pieces, the last one keeping any further separators. */
  function SplitN(s: string, n: nat, c: char): seq<string>
    requires n > 0
    decreases n
  {
    if n == 1 || Find(s, c) == |s| then [s] else [s[..Find(s, c)]] + SplitN(s[Find(s, c) + 1..], n - 1, c)
  }

  /** A piece without separators is split off whole. */
  lemma SplitFirst(a: string, rest: string, n: nat, c: char)
    requires c !in a && n >= 2
    ensures SplitN(a + [c] + rest, n, c) == [a] + SplitN(rest, n - 1, c)
  {
    var s := a + [c] + rest;
    FindAfter(a, rest, c);
    assert s[..|a|] == a && s[|a| + 1..] == rest;
  }

  /** Every piece but the last is free of separators. */
  lemma {:induction false} PiecesAreFree(s: string, n: nat, c: char, i: nat)
    requires n > 0 && i < |SplitN(s, n, c)| - 1
    ensures c !in SplitN(s, n, c)[i]
    decreases n
  {
    if i > 0 {
      PiecesAreFree(s[Find(s, c) + 1..], n - 1, c, i - 1);
    }
  }

  // ---------- printing and parsing ----------

  /** `tornado-{symbol}-{amount}-{chain_id}-0x{preimage}`. */
  function ToString(n: NoteString): string {
    var preimage := "0x" + HexEncode(n.note.Preimage());
    "tornado" + "-" + (n.symbol + "-" + (n.amount + "-" + (Digits(n.chainId) + "-" + preimage)))
  }

  function StripPrefix(s: string): string {
    if |s| >= 2 && s[0] == '0' && s[1] == 'x' then s[2..] else s
  }

  function FromString(s: string): Result<NoteString, NoteError> {
    FromPieces(SplitN(s, 5, '-'))
  }

  function FromPieces(parts: seq<string>): Result<NoteString, NoteError> {
    if |parts| != 5 || parts[0] != "tornado" then Err(InvalidFormat)
    else
      match ParseU64(parts[3])
      case None => Err(InvalidChainId)
      case Some(chainId) =>
        match HexDecode(StripPrefix(parts[4]))
        case None => Err(InvalidHex)
        case Some(bytes) =>
          if |bytes| != 62 then Err(InvalidFormat)
          else Ok(NoteString(Note(bytes[..31], bytes[31..]), parts[1], parts[2], chainId))
  }

  lemma TwoPieces(a: string, b: string, n: nat)
    requires '-' !in a && n == 2
    ensures SplitN(a + "-" + b, n, '-') == [a, b]
  {
    SplitFirst(a, b, n, '-');
  }

  lemma ThreePieces(a: string, rest: string, b: string, c: string, n: nat)
    requires '-' !in a && n == 3 && SplitN(rest, n - 1, '-') == [b, c]
    ensures SplitN(a + "-" + rest, n, '-') == [a, b, c]
  {
    SplitFirst(a, rest, n, '-');
  }

  lemma FourPieces(a: string, rest: string, b: string, c: string, d: string, n: nat)
    requires '-' !in a && n == 4 && SplitN(rest, n - 1, '-') == [b, c, d]
    ensures SplitN(a + "-" + rest, n, '-') == [a, b, c, d]
  {
    SplitFirst(a, rest, n, '-');
  }

  lemma FivePieces(a: string, rest: string, b: string, c: string, d: string, e: string, n: nat)
    requires '-' !in a && n == 5 && SplitN(rest, n - 1, '-') == [b, c, d, e]
    ensures SplitN(a + "-" + rest, n, '-') == [a, b, c, d, e]
  {
    SplitFirst(a, rest, n, '-');
  }

  /** Four pieces without a dash, and whatever follows the fourth dash. */
  lemma SplitFive(a: string, b: string, c: string, d: string, e: string)
    requires '-' !in a && '-' !in b && '-' !in c && '-' !in d
    ensures SplitN(a + "-" + (b + "-" + (c + "-" + (d + "-" + e))), 5, '-') == [a, b, c, d, e]
  {
    var two := d + "-" + e;
    var three := c + "-" + two;
    TwoPieces(d, e, 2);
    ThreePieces(c, two, d, e, 3);
    FourPieces(b, three, c, d, e, 4);
    FivePieces(a, b + "-" + three, b, c, d, e, 5);
  }

  lemma PiecesParse(n: NoteString, chain: string, hex: string)
    requires n.note.Valid() && ParseU64(chain) == Some(n.chainId) && HexDecode(hex) == Some(n.note.Preimage())
    ensures FromPieces(["tornado", n.symbol, n.amount, chain, "0x" + hex]) == Ok(n)
  {
    assert StripPrefix("0x" + hex) == hex;
    var preimage := n.note.Preimage();
    assert preimage[..31] == n.note.nullifier && preimage[31..] == n.note.secret;
  }

  lemma ParsePrinted(n: NoteString)
    requires n.note.Valid() && n.DashFree()
    ensures FromString(ToString(n)) == Ok(n)
  {
    DigitsHaveNoPoint(Digits(n.chainId));
    var chain, hex := Digits(n.chainId), "0x" + HexEncode(n.note.Preimage());
    SplitFive("tornado", n.symbol, n.amount, chain, hex);
    ParseDigits(n.chainId);
    HexRoundTrip(n.note.Preimage());
    PiecesParse(n, Digits(n.chainId), HexEncode(n.note.Preimage()));
  }

  /** Whatever parses is a well-formed note whose symbol and amount have no dash. */
  lemma ParsedIsDashFree(s: string)
    ensures FromString(s).Ok? ==> FromString(s).value.note.Valid() && FromString(s).value.DashFree()
  {
    if FromString(s).Ok? {
      PiecesAreFree(s, 5, '-', 1);
      PiecesAreFree(s, 5, '-', 2);
    }
  }

  /** Parsing undoes printing exactly for the notes whose symbol and amount contain no dash. */
  lemma RoundTripIffDashFree(n: NoteString)
    requires n.note.Valid()
    ensures FromString(ToString(n)) == Ok(n) <==> n.DashFree()
  {
    if n.DashFree() {
      ParsePrinted(n);
    }
    ParsedIsDashFree(ToString(n));
  }

  /**
   What becomes of a note whose symbol has one dash: every later piece moves by one, so that the
   amount is read as the chain and the chain as part of the secrets.
   */
  lemma DashedSymbolIsLost(note: Note, a: string, b: string, amount: string, chainId: u64)
    requires note.Valid() && '-' !in a && '-' !in b && '-' !in amount
    ensures FromString(ToString(NoteString(note, a + "-" + b, amount, chainId)))
         == Err(if ParseU64(amount).None? then InvalidChainId else InvalidHex)
  {
    var hex := "0x" + HexEncode(note.Preimage());
    var last := Digits(chainId) + "-" + hex;
    MoveDash(a, b, amount + "-" + last);
    SplitFive("tornado", a, b, amount, last);
    ChainIsNoHex(chainId, hex);
    ChainOrHex(a, b, amount, last);
  }

  lemma MoveDash(a: string, b: string, rest: string)
    ensures (a + "-" + b) + "-" + rest == a + "-" + (b + "-" + rest)
  {
  }

  lemma ChainOrHex(a: string, b: string, amount: string, last: string)
    requires HexDecode(StripPrefix(last)).None?
    ensures var error := if ParseU64(amount).None? then InvalidChainId else InvalidHex;
      FromPieces(["tornado", a, b, amount, last]) == Err(error)
  {
  }

  lemma ChainIsNoHex(chainId: u64, rest: string)
    ensures HexDecode(StripPrefix(Digits(chainId) + "-" + rest)).None?
  {
    var chain := Digits(chainId);
    var s := chain + "-" + rest;
    assert IsDigit(chain[0]) && (|chain| > 1 ==> IsDigit(chain[1]));
    assert StripPrefix(s) == s && s[|chain|] == '-';
    DashIsNoHex(s);
  }

  lemma {:induction false} DashIsNoHex(s: string)
    requires '-' in s
    ensures HexDecode(s).None?
  {
    if |s| >= 2 && s[0] != '-' && s[1] != '-' {
      DashIsNoHex(s[2..]);
    }
  }

  /** One such note: the pool symbol `a-b`, the amount 1 and chain 1. */
  lemma DashedNote(note: Note)
    requires note.Valid()
    ensures FromString(ToString(NoteString(note, "a" + "-" + "b", Digits(1), 1))) == Err(InvalidHex)
  {
    DigitsHaveNoPoint(Digits(1));
    ParseDigits(1);
    DashedSymbolIsLost(note, "a", "b", Digits(1), 1);
  }

  /** Printing a parsed note and parsing it again gives the same note. */
  lemma PrintThenParse(s: string)
    requires FromString(s).Ok?
    ensures FromString(ToString(FromString(s).value)) == FromString(s)
  {
    ParsedIsDashFree(s);
    ParsePrinted(FromString(s).value);
  }

  /** The scalars a note is committed to through determine the note. */
  lemma CommittedScalarsDetermineNote(a: Note, b: Note)
    requires a.Valid() && b.Valid()
    requires SignedWindows.Scalars(a.Preimage()) == SignedWindows.Scalars(b.Preimage())
    ensures a == b
  {
    SignedWindows.ScalarsInjective(a.Preimage(), b.Preimage());
    assert a.Preimage()[..31] == a.nullifier && a.Preimage()[31..] == a.secret;
    assert b.Preimage()[..31] == b.nullifier && b.Preimage()[31..] == b.secret;
  }

  // ---------- notes of a pool ----------

  /** The note of a pool with this asset symbol, amount in base units, decimals and chain. */
  function FromPool(note: Note, symbol: string, amountWei: nat, decimals: nat, chainId: u64): NoteString {
    NoteString(note, symbol, Formatted(amountWei, decimals), chainId)
  }

  lemma FormattedHasNoDash(amount: nat, decimals: nat)
    ensures '-' !in Formatted(amount, decimals)
  {
    FormattedExact(amount, decimals);
    var s := Formatted(amount, decimals);
    forall i | 0 <= i < |s|
      ensures s[i] != '-'
    {
      if i < PointAt(s) {
        assert IsDigit(Whole(s)[i]);
      } else if i > PointAt(s) {
        assert IsDigit(Fraction(s)[i - PointAt(s) - 1]);
      }
    }
  }

  /** Every note made for a pool whose symbol has no dash survives printing and parsing. */
  lemma PoolNotesRoundTrip(note: Note, symbol: string, amountWei: nat, decimals: nat, chainId: u64)
    requires note.Valid() && '-' !in symbol
    ensures var n := FromPool(note, symbol, amountWei, decimals, chainId); FromString(ToString(n)) == Ok(n)
  {
    FormattedHasNoDash(amountWei, decimals);
    ParsePrinted(FromPool(note, symbol, amountWei, decimals, chainId));
  }
}
