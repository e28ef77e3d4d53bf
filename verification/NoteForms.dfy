/** The printed form of a note character by character, and exactly which strings parse to which note. */
module NoteForms {
  import opened MachineInts
  import opened Wrappers
  import opened Text
  import opened Amounts
  import opened Notes

  // ---------- hexadecimal ----------

  /** Each byte is two digits, the high one first. */
  lemma {:induction false} HexEncodeAt(bytes: seq<byte>, i: nat)
    ensures |HexEncode(bytes)| == 2 * |bytes|
    ensures i < |bytes| ==>
      && HexEncode(bytes)[2 * i] == "0123456789abcdef"[bytes[i] / 16]
      && HexEncode(bytes)[2 * i + 1] == "0123456789abcdef"[bytes[i] % 16]
  {
    if bytes != [] {
      HexEncodeAt(bytes[1..], if i > 0 then i - 1 else 0);
    }
  }

  /** The two characters from `2 * i` on are hexadecimal digits, in either case, and spell byte `i`. */
  predicate Spells(s: string, bytes: seq<byte>, i: nat)
    requires i < |bytes| && |s| == 2 * |bytes|
  {
    var high, low := HexValue(s[2 * i]), HexValue(s[2 * i + 1]);
    high.Some? && low.Some? && bytes[i] == 16 * high.value + low.value
  }

  predicate AllSpell(s: string, bytes: seq<byte>) {
    |s| == 2 * |bytes| && forall i :: 0 <= i < |bytes| ==> Spells(s, bytes, i)
  }

  lemma HexValues(c: char)
    ensures HexValue(c) == (
      if c in "0123456789" then Some(c as int - '0' as int)
      else if c in "abcdef" then Some(10 + (c as int - 'a' as int))
      else if c in "ABCDEF" then Some(10 + (c as int - 'A' as int))
      else None)
  {
    DecimalOrNot(c);
    assert c in "abcdef" <==> 'a' <= c <= 'f';
    assert c in "ABCDEF" <==> 'A' <= c <= 'F';
  }

  lemma DecimalOrNot(c: char)
    ensures c in "0123456789" <==> '0' <= c <= '9'
  {
  }

  /** A string decodes to bytes exactly when each pair of its characters spells one of them. */
  lemma {:induction false} HexDecodeExact(s: string, bytes: seq<byte>)
    ensures HexDecode(s) == Some(bytes) <==> AllSpell(s, bytes)
  {
    if |s| >= 2 && bytes != [] {
      HexDecodeExact(s[2..], bytes[1..]);
      HexValueBound(s[0]);
      HexValueBound(s[1]);
      OnePair(s, bytes);
      if HexDecode(s) == Some(bytes) {
        assert HexDecode(s[2..]).Some? && HexDecode(s[2..]).value == bytes[1..];
      }
      assert [bytes[0]] + bytes[1..] == bytes;
    }
  }

  lemma OnePair(s: string, bytes: seq<byte>)
    requires |s| >= 2 && bytes != []
    ensures AllSpell(s, bytes) <==>
      var high, low := HexValue(s[0]), HexValue(s[1]);
      high.Some? && low.Some? && bytes[0] == 16 * high.value + low.value && AllSpell(s[2..], bytes[1..])
  {
    if |s| == 2 * |bytes| {
      assert forall i: nat :: i < |bytes| - 1 ==> (Spells(s, bytes, i + 1) <==> Spells(s[2..], bytes[1..], i));
      if AllSpell(s[2..], bytes[1..]) {
        assert forall i: nat :: 0 < i < |bytes| ==> (Spells(s, bytes, i) <==> Spells(s[2..], bytes[1..], i - 1));
      }
      if AllSpell(s, bytes) {
        assert Spells(s, bytes, 0);
      }
    }
  }

  // ---------- numbers ----------

  /** The string is a number in decimal digits, none of them missing. */
  predicate Spelled(s: string, n: nat) {
    s != [] && AllDigits(s) && DigitSum(s, |s|) == n
  }

  /** A chain id is read from decimal digits, after a plus sign or not, if their number fits. */
  lemma ParseU64Exact(s: string, n: u64)
    ensures ParseU64(s) == Some(n) <==> Spelled(s, n) || (s != [] && s[0] == '+' && Spelled(s[1..], n))
  {
    if AllDigits(s) {
      ValueIsSum(s);
    }
    if s != [] && AllDigits(s[1..]) {
      ValueIsSum(s[1..]);
    }
    assert s != [] && s[0] == '+' ==> !IsDigit(s[0]);
  }

  // ---------- printing ----------

  /** `tornado-`, the symbol, the amount, the chain id and the 62 bytes in hexadecimal, nullifier first. */
  lemma PrintedForm(n: NoteString, i: nat)
    requires n.note.Valid()
    ensures ToString(n) == "tornado-" + n.symbol + "-" + n.amount + "-" + Digits(n.chainId) + "-0x"
      + HexEncode(n.note.Preimage())
    ensures Spelled(Digits(n.chainId), n.chainId)
    ensures |HexEncode(n.note.Preimage())| == 124
    ensures i < 62 ==>
      var b, hex := if i < 31 then n.note.nullifier[i] else n.note.secret[i - 31], HexEncode(n.note.Preimage());
      hex[2 * i] == "0123456789abcdef"[b / 16] && hex[2 * i + 1] == "0123456789abcdef"[b % 16]
  {
    DigitsValue(n.chainId);
    ValueIsSum(Digits(n.chainId));
    HexEncodeAt(n.note.Preimage(), i);
  }

  // ---------- parsing ----------

  function Join(pieces: seq<string>, c: char): string
    requires pieces != []
  {
    if |pieces| == 1 then pieces[0] else pieces[0] + [c] + Join(pieces[1..], c)
  }

  /** Splitting loses nothing but the separators. */
  lemma {:induction false} SplitJoins(s: string, n: nat, c: char)
    requires n > 0
    ensures SplitN(s, n, c) != [] && |SplitN(s, n, c)| <= n && Join(SplitN(s, n, c), c) == s
    decreases n
  {
    var k := Find(s, c);
    if n > 1 && k < |s| {
      SplitJoins(s[k + 1..], n - 1, c);
      JoinMore(s[..k], SplitN(s[k + 1..], n - 1, c), c);
      assert s == s[..k] + [c] + s[k + 1..];
    }
  }

  lemma JoinMore(first: string, rest: seq<string>, c: char)
    requires rest != []
    ensures Join([first] + rest, c) == first + [c] + Join(rest, c)
  {
    assert ([first] + rest)[1..] == rest;
  }

  /** The string is the printed form of the note, up to the spelling of its number and of its digits. */
  predicate Writes(s: string, n: NoteString, chain: string, prefix: string, hex: string) {
    && s == "tornado-" + n.symbol + "-" + n.amount + "-" + chain + "-" + prefix + hex
    && '-' !in n.symbol && '-' !in n.amount && '-' !in chain
    && (Spelled(chain, n.chainId) || (chain != [] && chain[0] == '+' && Spelled(chain[1..], n.chainId)))
    && (prefix == "0x" || prefix == "")
    && |n.note.nullifier| == 31 && |n.note.secret| == 31 && AllSpell(hex, n.note.nullifier + n.note.secret)
  }

  lemma StripsPrefix(prefix: string, hex: string)
    requires (prefix == "0x" || prefix == "") && HexDecode(hex).Some?
    ensures StripPrefix(prefix + hex) == hex
  {
    if prefix == "" {
      assert prefix + hex == hex;
      assert |hex| >= 2 ==> HexValue(hex[1]).Some?;
    } else {
      assert (prefix + hex)[2..] == hex;
    }
  }

  lemma Regroup(symbol: string, amount: string, chain: string, last: string)
    ensures "tornado-" + symbol + "-" + amount + "-" + chain + "-" + last
         == "tornado" + "-" + (symbol + "-" + (amount + "-" + (chain + "-" + last)))
  {
  }

  lemma WrittenPieces(n: NoteString, chain: string, prefix: string, hex: string)
    requires ParseU64(chain) == Some(n.chainId) && n.note.Valid()
    requires prefix == "0x" || prefix == ""
    ensures HexDecode(hex) == Some(n.note.Preimage()) ==>
      FromPieces(["tornado", n.symbol, n.amount, chain, prefix + hex]) == Ok(n)
  {
    if HexDecode(hex).Some? {
      StripsPrefix(prefix, hex);
    }
    var preimage := n.note.Preimage();
    assert preimage[..31] == n.note.nullifier && preimage[31..] == n.note.secret;
  }

  lemma WrittenParses(s: string, n: NoteString, chain: string, prefix: string, hex: string)
    requires Writes(s, n, chain, prefix, hex)
    ensures FromString(s) == Ok(n)
  {
    var last := prefix + hex;
    Regroup(n.symbol, n.amount, chain, last);
    SplitFive("tornado", n.symbol, n.amount, chain, last);
    ParseU64Exact(chain, n.chainId);
    HexDecodeExact(hex, n.note.Preimage());
    WrittenPieces(n, chain, prefix, hex);
    Appended("tornado-" + n.symbol + "-" + n.amount + "-" + chain + "-", prefix, hex);
  }

  lemma Appended(a: string, b: string, c: string)
    ensures a + b + c == a + (b + c)
  {
  }

  lemma ParsedPieces(parts: seq<string>, n: NoteString) returns (prefix: string, hex: string)
    requires FromPieces(parts) == Ok(n)
    ensures |parts| == 5 && parts[0] == "tornado" && parts[1] == n.symbol && parts[2] == n.amount
    ensures ParseU64(parts[3]) == Some(n.chainId)
    ensures parts[4] == prefix + hex && (prefix == "0x" || prefix == "")
    ensures n.note.Valid() && HexDecode(hex) == Some(n.note.Preimage())
  {
    hex := StripPrefix(parts[4]);
    prefix := if hex == parts[4] then "" else "0x";
    var bytes := HexDecode(hex).value;
    assert bytes == bytes[..31] + bytes[31..];
  }

  lemma ParsedIsWritten(s: string, n: NoteString) returns (chain: string, prefix: string, hex: string)
    requires FromString(s) == Ok(n)
    ensures Writes(s, n, chain, prefix, hex)
  {
    var parts := SplitN(s, 5, '-');
    prefix, hex := ParsedPieces(parts, n);
    chain := parts[3];
    SplitJoins(s, 5, '-');
    JoinFive(parts);
    Regroup(n.symbol, n.amount, chain, parts[4]);
    Appended("tornado-" + n.symbol + "-" + n.amount + "-" + chain + "-", prefix, hex);
    FreePieces(s);
    ParseU64Exact(chain, n.chainId);
    HexDecodeExact(hex, n.note.Preimage());
  }

  lemma FreePieces(s: string)
    requires |SplitN(s, 5, '-')| == 5
    ensures forall i :: 0 <= i < 4 ==> '-' !in SplitN(s, 5, '-')[i]
  {
    forall i | 0 <= i < 4
      ensures '-' !in SplitN(s, 5, '-')[i]
    {
      PiecesAreFree(s, 5, '-', i);
    }
  }

  lemma JoinFive(parts: seq<string>)
    requires |parts| == 5
    ensures Join(parts, '-') == parts[0] + "-" + (parts[1] + "-" + (parts[2] + "-" + (parts[3] + "-" + parts[4])))
  {
    var four, three, two := parts[1..], parts[2..], parts[3..];
    assert four[1..] == three && three[1..] == two && two[1..] == [parts[4]];
    assert Join(two, '-') == parts[3] + "-" + parts[4];
    assert Join(three, '-') == parts[2] + "-" + (parts[3] + "-" + parts[4]);
    assert Join(four, '-') == parts[1] + "-" + (parts[2] + "-" + (parts[3] + "-" + parts[4]));
  }

  /** The string is `tornado` and three pieces without a dash, and whatever follows the dash after them. */
  predicate FivePart(s: string, a: string, b: string, chain: string, last: string) {
    && s == "tornado-" + a + "-" + b + "-" + chain + "-" + last
    && '-' !in a && '-' !in b && '-' !in chain
  }

  /**
   What parsing such a string gives: the chain id is looked at first, then the hexadecimal digits,
   then their number.
   */
  lemma FivePartParses(s: string, a: string, b: string, chain: string, last: string)
    requires FivePart(s, a, b, chain, last)
    ensures FromString(s).Err? ==> FromString(s) == Err(ErrorOf(chain, last))
  {
    Regroup(a, b, chain, last);
    SplitFive("tornado", a, b, chain, last);
    assert FromString(s) == FromPieces(["tornado", a, b, chain, last]);
    PiecesFail(a, b, chain, last);
  }

  function ErrorOf(chain: string, last: string): NoteError {
    if ParseU64(chain).None? then InvalidChainId
    else if HexDecode(if "0x" <= last then last[2..] else last).None? then InvalidHex
    else InvalidFormat
  }

  lemma PiecesFail(a: string, b: string, chain: string, last: string)
    ensures var r := FromPieces(["tornado", a, b, chain, last]); r.Err? ==> r == Err(ErrorOf(chain, last))
  {
    assert StripPrefix(last) == if "0x" <= last then last[2..] else last;
  }

  /** Any other string is of the wrong format. */
  lemma OthersAreInvalid(s: string)
    ensures FromString(s) == Err(InvalidFormat) || exists a, b, chain, last :: FivePart(s, a, b, chain, last)
  {
    var parts := SplitN(s, 5, '-');
    if |parts| == 5 && parts[0] == "tornado" {
      SplitJoins(s, 5, '-');
      JoinFive(parts);
      Regroup(parts[1], parts[2], parts[3], parts[4]);
      FreePieces(s);
      assert FivePart(s, parts[1], parts[2], parts[3], parts[4]);
    }
  }

  /** A string parses to a note exactly when it writes that note. */
  lemma ParsesExactly(s: string, n: NoteString)
    ensures FromString(s) == Ok(n) <==> exists chain, prefix, hex :: Writes(s, n, chain, prefix, hex)
  {
    if FromString(s) == Ok(n) {
      var chain, prefix, hex := ParsedIsWritten(s, n);
    }
    if chain, prefix, hex :| Writes(s, n, chain, prefix, hex) {
      WrittenParses(s, n, chain, prefix, hex);
    }
  }
}
