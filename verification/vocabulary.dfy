/** The preprocessor and the vocabulary tables.

    On the DPU, `preprocess_domain` maps each character of the name to
    `mram_vocabulary[(int)c]` and zero-fills the rest of `char_ids`. The table
    has `MAX_DOMAIN_LEN` entries (130 in dga.c, dga1.c and dgaa1.c, 164 in
    dt2.c, 32 in dtest.c), and `(int)c` of a plain `char` is signed on the
    DPU. The domain_host.c host builds its own 256-entry float table and
    converts entries to `int32_t` ids. Characters are bytes here: every `char`
    has a code below 256. */
module Vocabulary {
  import opened Wrappers
  import opened Domains

  predicate IsByte(c: char) {
    (c as int) < 256
  }

  predicate AllBytes(s: seq<char>) {
    forall i :: 0 <= i < |s| ==> IsByte(s[i])
  }

  /** `(int)c` for a signed 8-bit `char`. */
  function SignedCode(c: char): (v: int)
    requires IsByte(c)
    ensures -128 <= v < 128
    ensures v >= 0 <==> (c as int) < 128
    ensures v >= 0 ==> v == c as int
  {
    if (c as int) < 128 then c as int else c as int - 256
  }

  /** `strlen` of a fixed-size field: the index of its first NUL, or `None`
      when the field is unterminated and `strlen` would run past it. */
  function Strlen(field: seq<char>): (n: Option<nat>)
    ensures n.Some? ==> n.value < |field| && field[n.value] == NUL && NoNul(field[..n.value])
    ensures n.None? <==> NoNul(field)
  {
    if |field| == 0 then None
    else if field[0] == NUL then Some(0)
    else
      match Strlen(field[1..])
      case None => None
      case Some(k) =>
        assert field[..k + 1] == [field[0]] + field[1..][..k];
        Some(k + 1)
  }

  datatype PreprocessError =
    | Unterminated
    | TooLong(len: nat)
    | OutsideTable(index: nat, code: int)

  /** The first position below `len`, from `i` on, whose code is not an index
      of a table with `size` entries. */
  function FirstOutside(field: seq<char>, len: nat, size: nat, i: nat): (r: Option<nat>)
    requires len <= |field| && AllBytes(field)
    ensures r.Some? ==> i <= r.value < len && !(0 <= SignedCode(field[r.value]) < size)
    ensures r.Some? ==> forall j :: i <= j < r.value ==> 0 <= SignedCode(field[j]) < size
    ensures r.None? ==> forall j :: i <= j < len ==> 0 <= SignedCode(field[j]) < size
    decreases len - i
  {
    if i >= len then None
    else if !(0 <= SignedCode(field[i]) < size) then Some(i)
    else FirstOutside(field, len, size, i + 1)
  }

  /** `preprocess_domain(domain, char_ids, max_len)` with the table `vocab`.
      Reading the name past its field, writing ids past `max_len`, or looking
      a character up outside the table are reported instead of performed. */
  function Preprocess(field: seq<char>, vocab: seq<int>, maxLen: nat): (r: Result<seq<int>, PreprocessError>)
    requires AllBytes(field)
    ensures r.Success? ==> Strlen(field).Some? && Strlen(field).value <= maxLen && |r.value| == maxLen
    ensures r.Success? ==> forall i :: 0 <= i < Strlen(field).value ==>
      0 <= SignedCode(field[i]) < |vocab| && r.value[i] == vocab[SignedCode(field[i])]
    ensures r.Success? ==> forall i :: Strlen(field).value <= i < maxLen ==> r.value[i] == 0
  {
    match Strlen(field)
    case None => Failure(Unterminated)
    case Some(len) =>
      if len > maxLen then Failure(TooLong(len))
      else
        match FirstOutside(field, len, |vocab|, 0)
        case Some(i) => Failure(OutsideTable(i, SignedCode(field[i])))
        case None => Success(seq(maxLen, i requires 0 <= i < maxLen => if i < len then vocab[SignedCode(field[i])] else 0))
  }

  /** The preprocessor succeeds exactly when the name is terminated inside its
      field, fits `max_len`, and every character indexes the table. */
  lemma PreprocessSucceedsIff(field: seq<char>, vocab: seq<int>, maxLen: nat)
    requires AllBytes(field)
    ensures Preprocess(field, vocab, maxLen).Success? <==>
      Strlen(field).Some? && Strlen(field).value <= maxLen &&
      forall i :: 0 <= i < Strlen(field).value ==> 0 <= SignedCode(field[i]) < |vocab|
  {
  }

  /** Only the name matters: bytes after the terminator do not change the ids. */
  lemma PreprocessIgnoresTail(f1: seq<char>, f2: seq<char>, vocab: seq<int>, maxLen: nat)
    requires AllBytes(f1) && AllBytes(f2)
    requires Strlen(f1).Some? && Strlen(f2).Some? && Strlen(f1).value == Strlen(f2).value
    requires f1[..Strlen(f1).value] == f2[..Strlen(f2).value]
    ensures Preprocess(f1, vocab, maxLen) == Preprocess(f2, vocab, maxLen)
  {
    var len := Strlen(f1).value;
    forall i | 0 <= i < len
      ensures f1[i] == f2[i]
    {
      assert f1[i] == f1[..len][i];
      assert f2[i] == f2[..len][i];
    }
    FirstOutsideAgrees(f1, f2, len, |vocab|, 0);
    var r1 := Preprocess(f1, vocab, maxLen);
    var r2 := Preprocess(f2, vocab, maxLen);
    if r1.Success? && r2.Success? {
      assert r1.value == r2.value;
    }
  }

  lemma {:induction false} FirstOutsideAgrees(f1: seq<char>, f2: seq<char>, len: nat, size: nat, i: nat)
    requires len <= |f1| && len <= |f2| && AllBytes(f1) && AllBytes(f2)
    requires forall j :: 0 <= j < len ==> f1[j] == f2[j]
    ensures FirstOutside(f1, len, size, i) == FirstOutside(f2, len, size, i)
    decreases len - i
  {
    if i < len {
      FirstOutsideAgrees(f1, f2, len, size, i + 1);
    }
  }

  /** The two loops of `preprocess_domain`, over a WRAM copy of the ids. */
  method PreprocessDomain(field: seq<char>, vocab: seq<int>, maxLen: nat) returns (r: Result<seq<int>, PreprocessError>)
    requires AllBytes(field)
    ensures r == Preprocess(field, vocab, maxLen)
  {
    var len := 0;
    while len < |field| && field[len] != NUL
      invariant 0 <= len <= |field|
      invariant NoNul(field[..len])
    {
      assert field[..len + 1] == field[..len] + [field[len]];
      len := len + 1;
    }
    if len == |field| {
      assert field[..len] == field;
      return Failure(Unterminated);
    }
    assert Strlen(field) == Some(len) by {
      StrlenIsFirstNul(field, len);
    }
    if len > maxLen {
      return Failure(TooLong(len));
    }
    var ids := seq(maxLen, _ => 0);
    var i := 0;
    while i < len
      invariant 0 <= i <= len && |ids| == maxLen
      invariant forall j :: 0 <= j < i ==> 0 <= SignedCode(field[j]) < |vocab| && ids[j] == vocab[SignedCode(field[j])]
      invariant forall j :: i <= j < maxLen ==> ids[j] == 0
      invariant FirstOutside(field, len, |vocab|, 0) == FirstOutside(field, len, |vocab|, i)
    {
      var code := SignedCode(field[i]);
      if !(0 <= code < |vocab|) {
        return Failure(OutsideTable(i, code));
      }
      ids := ids[i := vocab[code]];
      i := i + 1;
    }
    r := Success(ids);
    assert ids == Preprocess(field, vocab, maxLen).value;
  }

  /** `Strlen` finds the first NUL. */
  lemma {:induction false} StrlenIsFirstNul(field: seq<char>, n: nat)
    requires n < |field| && field[n] == NUL && NoNul(field[..n])
    ensures Strlen(field) == Some(n)
  {
    if n > 0 {
      assert field[0] == field[..n][0];
      assert field[1..][..n - 1] == field[1..n];
      StrlenIsFirstNul(field[1..], n - 1);
    }
  }

  // ---------------------------------------------------------------------
  // The device tables.

  /** A table indexed by every code below 128 accepts every ASCII name: the
      130-entry tables of dga.c, dga1.c and dgaa1.c and the 164-entry table
      of dt2.c. */
  lemma AsciiFitsWideTable(field: seq<char>, vocab: seq<int>, maxLen: nat)
    requires AllBytes(field) && |vocab| >= 128
    requires Strlen(field).Some? && Strlen(field).value <= maxLen
    requires forall i :: 0 <= i < |field| ==> (field[i] as int) < 128
    ensures Preprocess(field, vocab, maxLen).Success?
  {
    PreprocessSucceedsIff(field, vocab, maxLen);
  }

  /** dtest.c's table has 32 entries, so any printable character, whose code
      is at least 32, falls outside it: "baidu.com" stops at its first
      letter. */
  lemma DtestTableTooSmall(field: seq<char>, vocab: seq<int>)
    requires |vocab| == 32 && field == "baidu.com" + [NUL]
    ensures Preprocess(field, vocab, 32) == Failure(OutsideTable(0, 98))
  {
    StrlenIsFirstNul(field, 9);
  }

  /** Every host leaves its vocabulary array zero-initialised, and with an
      all-zero table every id is 0, whatever the name. */
  lemma ZeroTableGivesZeroIds(field: seq<char>, vocab: seq<int>, maxLen: nat)
    requires AllBytes(field) && forall k :: 0 <= k < |vocab| ==> vocab[k] == 0
    requires Preprocess(field, vocab, maxLen).Success?
    ensures Preprocess(field, vocab, maxLen).value == seq(maxLen, _ => 0)
  {
  }

  // ---------------------------------------------------------------------
  // The host table of domain_host.c.

  /** The id `init_vocab` assigns to a listed character. */
  function ListedId(c: char): Option<nat> {
    match c
    case 'w' => Some(2)
    case '.' => Some(3)
    case 'u' => Some(4)
    case 'm' => Some(5)
    case 'o' => Some(6)
    case 'f' => Some(7)
    case 'i' => Some(8)
    case 'n' => Some(9)
    case 'v' => Some(10)
    case 'a' => Some(11)
    case 'r' => Some(12)
    case 'z' => Some(13)
    case 'e' => Some(14)
    case 'b' => Some(15)
    case 's' => Some(16)
    case 'c' => Some(17)
    case 'd' => Some(18)
    case 'h' => Some(19)
    case '1' => Some(20)
    case 'k' => Some(21)
    case 't' => Some(22)
    case 'q' => Some(23)
    case 'p' => Some(24)
    case '0' => Some(25)
    case 'l' => Some(26)
    case '4' => Some(27)
    case 'y' => Some(28)
    case 'g' => Some(29)
    case 'x' => Some(30)
    case '5' => Some(31)
    case 'j' => Some(32)
    case '-' => Some(33)
    case '3' => Some(34)
    case '2' => Some(35)
    case '8' => Some(36)
    case '7' => Some(37)
    case '9' => Some(38)
    case '6' => Some(39)
    case 'Y' => Some(40)
    case 'S' => Some(41)
    case 'D' => Some(42)
    case 'O' => Some(43)
    case 'R' => Some(44)
    case 'G' => Some(45)
    case 'J' => Some(46)
    case 'N' => Some(47)
    case 'C' => Some(48)
    case 'M' => Some(49)
    case 'W' => Some(50)
    case 'Q' => Some(51)
    case 'L' => Some(52)
    case '_' => Some(53)
    case 'H' => Some(54)
    case ':' => Some(55)
    case _ => None
  }

  /** The character listed with id `k`. */
  function ListedChar(k: nat): char
    requires 2 <= k <= 55
  {
    match k
    case 2 => 'w'
    case 3 => '.'
    case 4 => 'u'
    case 5 => 'm'
    case 6 => 'o'
    case 7 => 'f'
    case 8 => 'i'
    case 9 => 'n'
    case 10 => 'v'
    case 11 => 'a'
    case 12 => 'r'
    case 13 => 'z'
    case 14 => 'e'
    case 15 => 'b'
    case 16 => 's'
    case 17 => 'c'
    case 18 => 'd'
    case 19 => 'h'
    case 20 => '1'
    case 21 => 'k'
    case 22 => 't'
    case 23 => 'q'
    case 24 => 'p'
    case 25 => '0'
    case 26 => 'l'
    case 27 => '4'
    case 28 => 'y'
    case 29 => 'g'
    case 30 => 'x'
    case 31 => '5'
    case 32 => 'j'
    case 33 => '-'
    case 34 => '3'
    case 35 => '2'
    case 36 => '8'
    case 37 => '7'
    case 38 => '9'
    case 39 => '6'
    case 40 => 'Y'
    case 41 => 'S'
    case 42 => 'D'
    case 43 => 'O'
    case 44 => 'R'
    case 45 => 'G'
    case 46 => 'J'
    case 47 => 'N'
    case 48 => 'C'
    case 49 => 'M'
    case 50 => 'W'
    case 51 => 'Q'
    case 52 => 'L'
    case 53 => '_'
    case 54 => 'H'
    case 55 => ':'
  }

  /** Listed ids run from 2 to 55, and the id determines the character. */
  lemma ListedIdInverse(c: char)
    requires ListedId(c).Some?
    ensures 2 <= ListedId(c).value <= 55
    ensures ListedChar(ListedId(c).value) == c
  {
  }

  /** The float whose four bytes are all 0x01, the value `memset(vocab, 1, ..)`
      leaves in each entry: exponent field 2, mantissa 0x010101, that is
      8454401 * 2^-148, about 2.37e-38. The divisor is 2^148. */
  function MemsetOnesFloat(): real {
    8454401.0 / 356811923176489970264571492362373784095686656.0
  }

  lemma MemsetOnesFloatIsTiny()
    ensures 0.0 < MemsetOnesFloat() < 1.0
  {
  }

  /** C's float to `int32_t` conversion: truncation toward zero. */
  function TruncToInt(x: real): (r: int)
    ensures x >= 0.0 ==> r as real <= x < r as real + 1.0
    ensures x < 0.0 ==> r as real - 1.0 < x <= r as real
  {
    if x >= 0.0 then x.Floor else -((-x).Floor)
  }

  /** The table after `init_vocab`: the listed characters get their ids, and
      every other entry keeps `fill`, the value the initial `memset` wrote. */
  function HostVocab(fill: real): (t: seq<real>)
    ensures |t| == 256
  {
    seq(256, code requires 0 <= code < 256 =>
      match ListedId(code as char)
      case Some(k) => k as real
      case None => fill)
  }

  /** `init_vocab` as written, its default the `memset` byte pattern. */
  function InitVocab(): (t: seq<real>)
    ensures |t| == 256
  {
    HostVocab(MemsetOnesFloat())
  }

  /** The table the comment on the `memset` describes, unknown characters
      mapped to the `[UNK]` id 1. */
  function InitVocabIntended(): (t: seq<real>)
    ensures |t| == 256
  {
    HostVocab(1.0)
  }

  lemma HostVocabEntry(fill: real, c: char)
    requires IsByte(c)
    ensures HostVocab(fill)[c as int] == if ListedId(c).Some? then ListedId(c).value as real else fill
  {
    assert (c as int) as char == c;
  }

  /** The listed characters get the ids 2 to 55, and distinct characters get
      distinct ids: the table is injective on them. */
  lemma ListedIds(c: char, d: char)
    requires IsByte(c) && IsByte(d) && ListedId(c).Some? && ListedId(d).Some?
    ensures 2 <= TruncToInt(InitVocab()[c as int]) <= 55
    ensures TruncToInt(InitVocab()[c as int]) == TruncToInt(InitVocab()[d as int]) ==> c == d
  {
    HostVocabEntry(MemsetOnesFloat(), c);
    HostVocabEntry(MemsetOnesFloat(), d);
    ListedIdInverse(c);
    ListedIdInverse(d);
  }

  /** An unlisted character gets id 0, the padding id, not the `[UNK]` id 1
      the comment promises. 'A' is one. */
  lemma UnlistedIdIsZero(c: char)
    requires IsByte(c) && ListedId(c).None?
    ensures TruncToInt(InitVocab()[c as int]) == 0
  {
    HostVocabEntry(MemsetOnesFloat(), c);
    MemsetOnesFloatIsTiny();
  }

  /** The corrected table maps every unlisted character to `[UNK]` and keeps
      the ids of the listed ones. */
  lemma UnlistedIdIsUnknown(c: char)
    requires IsByte(c)
    ensures ListedId(c).None? ==> TruncToInt(InitVocabIntended()[c as int]) == 1
    ensures ListedId(c).Some? ==> TruncToInt(InitVocabIntended()[c as int]) == TruncToInt(InitVocab()[c as int])
  {
    HostVocabEntry(MemsetOnesFloat(), c);
    HostVocabEntry(1.0, c);
  }

  lemma UnlistedExample()
    ensures ListedId('A').None? && IsByte('A')
  {
  }

  /** `generate_char_ids`: `domain_len` is the length of the name, and each
      id is the table entry of the character's unsigned code, converted to
      an integer; positions after the name are 0. */
  function GenerateCharIds(domain: seq<char>, table: seq<real>): (r: (int, seq<int>))
    requires AllBytes(domain) && |domain| <= 16 && |table| == 256
    ensures r.0 == |domain| && |r.1| == 16
    ensures forall i :: 0 <= i < |domain| ==> r.1[i] == TruncToInt(table[domain[i] as int])
    ensures forall i :: |domain| <= i < 16 ==> r.1[i] == 0
  {
    (|domain|, seq(16, i requires 0 <= i < 16 => if i < |domain| then TruncToInt(table[domain[i] as int]) else 0))
  }

  /** `strncpy(domain_name, d, 16)` into the 16-byte field: the name, then
      NULs up to the field's end, and no terminator when the name fills it. */
  function StrncpyField(d: seq<char>, n: nat): (f: seq<char>)
    ensures |f| == n
  {
    if |d| >= n then d[..n] else d + Zeros(n - |d|)
  }

  /** A name of 16 or more characters, "01ol.ee4kdushuba" among them, leaves
      the field unterminated, so `strlen` of it would run past the field; a
      shorter NUL-free name reads back whole. */
  lemma StrncpyTermination(d: seq<char>)
    requires NoNul(d)
    ensures |d| >= 16 ==> Strlen(StrncpyField(d, 16)).None?
    ensures |d| < 16 ==> Strlen(StrncpyField(d, 16)) == Some(|d|) && StrncpyField(d, 16)[..|d|] == d
  {
    var f := StrncpyField(d, 16);
    if |d| < 16 {
      assert f[..|d|] == d;
      StrlenIsFirstNul(f, |d|);
    } else {
      forall i | 0 <= i < 16 ensures f[i] != NUL {
        assert f[i] == d[i];
      }
    }
  }

  lemma SixteenCharSample()
    ensures |"01ol.ee4kdushuba"| == 16 && NoNul("01ol.ee4kdushuba")
  {
  }
}
