/**
 * The driver's fixed tables: the raw codes of tone mode, mode and duplex with their
 * reverse maps, and the numbering of the special (non user) memory locations.
 */
module Tables {
  import opened Bytes
  import opened Outcomes

  // ---- TMODES / TMODES_REV ----

  datatype ToneMode = NoTone | Tone | TSQL | DTCS | Cross

  /** TMODES_REV: the raw tone-mode nibble for a tone mode. */
  function ToneModeCode(t: ToneMode): (c: int)
    ensures 0 <= c < 16 && ToneModeOf(c) == Some(t)
  {
    match t
    case NoTone => 0x00
    case Cross => 0x01
    case DTCS => 0x02
    case TSQL => 0x04
    case Tone => 0x08
  }

  /** TMODES: the tone mode a raw nibble stands for; None is the KeyError of an unlisted code. */
  function ToneModeOf(c: int): (t: Option<ToneMode>)
    ensures t.Some? <==> c == 0x00 || c == 0x01 || c == 0x02 || c == 0x04 || c == 0x08
  {
    if c == 0x08 then Some(Tone)
    else if c == 0x04 then Some(TSQL)
    else if c == 0x02 then Some(DTCS)
    else if c == 0x01 then Some(Cross)
    else if c == 0x00 then Some(NoTone)
    else None
  }

  /** TMODES_REV undoes TMODES on every code TMODES knows. */
  lemma ToneModeCodeOf(c: int)
    requires ToneModeOf(c).Some?
    ensures ToneModeCode(ToneModeOf(c).value) == c
  {
  }

  // ---- MODES / MODES_REV ----

  datatype Mode = FM | NFM | AM

  /** MODES_REV. */
  function ModeCode(m: Mode): (c: byte)
    ensures ModeOf(c) == Some(m)
  {
    match m
    case FM => 0x00
    case NFM => 0x01
    case AM => 0x02
  }

  /** MODES. */
  function ModeOf(c: int): (m: Option<Mode>)
    ensures m.Some? <==> 0 <= c <= 2
  {
    if c == 0x00 then Some(FM)
    else if c == 0x01 then Some(NFM)
    else if c == 0x02 then Some(AM)
    else None
  }

  /** MODES_REV undoes MODES on every code MODES knows. */
  lemma ModeCodeOf(c: int)
    requires ModeOf(c).Some?
    ensures ModeCode(ModeOf(c).value) == c
  {
  }

  // ---- DUPLEX / DUPLEX_REV ----

  datatype Duplex = Simplex | Plus | Minus | Split

  /** DUPLEX_REV. */
  function DuplexCode(d: Duplex): (c: int)
    ensures 0 <= c < 16 && DuplexOf(c) == Some(d)
  {
    match d
    case Simplex => 0x00
    case Plus => 0x01
    case Minus => 0x02
    case Split => 0x04
  }

  /** DUPLEX. */
  function DuplexOf(c: int): (d: Option<Duplex>)
    ensures d.Some? <==> c == 0x00 || c == 0x01 || c == 0x02 || c == 0x04
  {
    if c == 0x00 then Some(Simplex)
    else if c == 0x01 then Some(Plus)
    else if c == 0x02 then Some(Minus)
    else if c == 0x04 then Some(Split)
    else None
  }

  /** DUPLEX_REV undoes DUPLEX on every code DUPLEX knows. */
  lemma DuplexCodeOf(c: int)
    requires DuplexOf(c).Some?
    ensures DuplexCode(DuplexOf(c).value) == c
  {
  }

  // ---- THD72_SPECIAL / THD72_SPECIAL_REV ----

  /** max(THD72_SPECIAL.values()). */
  const MaxSpecial := 1031

  function Digit(d: int): (c: char)
    requires 0 <= d < 10
    ensures '0' <= c <= '9' && c as int - '0' as int == d
  {
    ('0' as int + d) as char
  }

  /**
   * THD72_SPECIAL_REV: the name of special location `n`. Scan-edge pairs L0/U0 .. L9/U9
   * interleave over 1000..1019, weather channels WX1..WX10 follow, then the two band-scope channels.
   */
  function SpecialName(n: int): (s: string)
    requires 1000 <= n <= MaxSpecial
    ensures 2 <= |s| <= 5
  {
    if n < 1020 then [if (n - 1000) % 2 == 0 then 'L' else 'U', Digit((n - 1000) / 2)]
    else if n < 1029 then ['W', 'X', Digit(n - 1019)]
    else if n == 1029 then "WX10"
    else if n == 1030 then "C VHF"
    else "C UHF"
  }

  /** Which family a special slot belongs to shows in the first letter of its name. */
  lemma SpecialNameInitial(n: int)
    requires 1000 <= n <= MaxSpecial
    ensures SpecialName(n)[0] == 'L' <==> n < 1020 && (n - 1000) % 2 == 0
    ensures SpecialName(n)[0] == 'U' <==> n < 1020 && (n - 1000) % 2 == 1
    ensures SpecialName(n)[0] == 'W' <==> 1020 <= n < 1030
    ensures SpecialName(n)[0] == 'C' <==> 1030 <= n
  {
  }

  /** THD72_SPECIAL: the location a special name denotes; None is the KeyError of an unknown name. */
  function SpecialNumber(name: string): (r: Option<int>)
    ensures r.Some? ==> 1000 <= r.value <= MaxSpecial && SpecialName(r.value) == name
  {
    if |name| == 2 && (name[0] == 'L' || name[0] == 'U') && '0' <= name[1] <= '9' then
      var d := name[1] as int - '0' as int;
      var n := 1000 + 2 * d + (if name[0] == 'U' then 1 else 0);
      assert SpecialName(n) == [name[0], name[1]];
      Some(n)
    else if |name| == 3 && name[0] == 'W' && name[1] == 'X' && '1' <= name[2] <= '9' then
      var n := 1019 + (name[2] as int - '0' as int);
      assert SpecialName(n) == [name[0], name[1], name[2]];
      Some(n)
    else if name == "WX10" then Some(1029)
    else if name == "C VHF" then Some(1030)
    else if name == "C UHF" then Some(1031)
    else None
  }

  /** The two tables are inverse: every location 1000..1031 has a name, and that name maps back to it. */
  lemma SpecialNumberOfName(n: int)
    requires 1000 <= n <= MaxSpecial
    ensures SpecialNumber(SpecialName(n)) == Some(n)
  {
    var s := SpecialName(n);
    if n < 1020 {
      var d := (n - 1000) / 2;
      assert s[1] as int - '0' as int == d;
    } else if n < 1029 {
      assert s[2] as int - '0' as int == n - 1019;
    }
  }

  /** The names follow the loop that builds THD72_SPECIAL: L i, U i, WX(i+1), and the two scopes. */
  lemma SpecialNumberFormula(i: int)
    requires 0 <= i < 10
    ensures SpecialNumber(['L', Digit(i)]) == Some(1000 + 2 * i)
    ensures SpecialNumber(['U', Digit(i)]) == Some(1000 + 2 * i + 1)
    ensures SpecialNumber(if i < 9 then ['W', 'X', Digit(i + 1)] else "WX10") == Some(1020 + i)
    ensures SpecialNumber("C VHF") == Some(1030) && SpecialNumber("C UHF") == Some(1031)
  {
    SpecialNumberOfName(1000 + 2 * i);
    SpecialNumberOfName(1000 + 2 * i + 1);
    SpecialNumberOfName(1020 + i);
  }
  // ---- get_special_locations ----

  /** Python's `<` on strings: code point by code point, a proper prefix first. */
  predicate StrLess(a: string, b: string) {
    if a == [] then b != []
    else if b == [] then false
    else a[0] < b[0] || (a[0] == b[0] && StrLess(a[1..], b[1..]))
  }

  /** Strings that agree before position `k` and differ there are ordered by that position. */
  lemma {:induction false} StrLessAt(a: string, b: string, k: nat)
    requires k < |a| && k < |b| && a[..k] == b[..k] && a[k] < b[k]
    ensures StrLess(a, b)
  {
    if k > 0 {
      assert a[1..][..k - 1] == a[..k][1..] && b[1..][..k - 1] == b[..k][1..];
      StrLessAt(a[1..], b[1..], k - 1);
    }
  }

  /** A proper prefix comes first. */
  lemma {:induction false} StrLessPrefix(a: string, b: string)
    requires |a| < |b| && b[..|a|] == a
    ensures StrLess(a, b)
  {
    if a != [] {
      assert b[1..][..|a| - 1] == a[1..];
      StrLessPrefix(a[1..], b[1..]);
    }
  }

  /** The keys of THD72_SPECIAL in the order `sorted` puts them. */
  const SortedSpecial: seq<string> :=
    ["C UHF", "C VHF", "L0", "L1", "L2", "L3", "L4", "L5",
     "L6", "L7", "L8", "L9", "U0", "U1", "U2", "U3",
     "U4", "U5", "U6", "U7", "U8", "U9", "WX1", "WX10",
     "WX2", "WX3", "WX4", "WX5", "WX6", "WX7", "WX8", "WX9"]

  /** Where location `n`'s name sits in SortedSpecial. */
  function SortedIndex(n: int): (i: int)
    requires 1000 <= n <= MaxSpecial
    ensures 0 <= i < |SortedSpecial| && SortedSpecial[i] == SpecialName(n)
  {
    if n < 1020 then (if (n - 1000) % 2 == 0 then 2 else 12) + (n - 1000) / 2
    else if n == 1020 then 22
    else if n == 1029 then 23
    else if n < 1029 then 24 + (n - 1021)
    else if n == 1030 then 1
    else 0
  }

  /** Every entry of SortedSpecial is the name of a location 1000..1031. */
  lemma SortedSpecialNamed(i: int)
    requires 0 <= i < |SortedSpecial|
    ensures exists n :: 1000 <= n <= MaxSpecial && SortedIndex(n) == i
  {
    var n :=
      if i == 0 then 1031 else if i == 1 then 1030
      else if i < 12 then 1000 + 2 * (i - 2)
      else if i < 22 then 1001 + 2 * (i - 12)
      else if i == 22 then 1020 else if i == 23 then 1029
      else 1021 + (i - 24);
    assert SortedIndex(n) == i;
  }

  /** Neighbours in SortedSpecial are in increasing string order. */
  lemma SortedSpecialOrdered(i: int)
    requires 0 <= i < |SortedSpecial| - 1
    ensures StrLess(SortedSpecial[i], SortedSpecial[i + 1])
  {
    var a, b := SortedSpecial[i], SortedSpecial[i + 1];
    if i == 0 {
      StrLessAt(a, b, 2);
    } else if i == 1 || i == 11 || i == 21 {
      StrLessAt(a, b, 0);
    } else if i < 21 {
      assert a[..1] == b[..1];
      StrLessAt(a, b, 1);
    } else if i == 22 {
      StrLessPrefix(a, b);
    } else {
      assert a[..2] == b[..2];
      StrLessAt(a, b, 2);
    }
  }

  /** `get_special_locations`: the keys of THD72_SPECIAL, sorted as strings. */
  function SpecialLocations(): (r: seq<string>)
    ensures |r| == MaxSpecial - 999
    ensures forall i :: 0 <= i < |r| ==> SpecialNumber(r[i]).Some?
    ensures forall n :: 1000 <= n <= MaxSpecial ==> SpecialName(n) in r
    ensures forall i :: 0 <= i < |r| - 1 ==> StrLess(r[i], r[i + 1])
  {
    assert forall i :: 0 <= i < |SortedSpecial| ==> SpecialNumber(SortedSpecial[i]).Some? by {
      forall i | 0 <= i < |SortedSpecial| ensures SpecialNumber(SortedSpecial[i]).Some? {
        SortedSpecialNamed(i);
        var n :| 1000 <= n <= MaxSpecial && SortedIndex(n) == i;
        SpecialNumberOfName(n);
      }
    }
    assert forall i :: 0 <= i < |SortedSpecial| - 1 ==> StrLess(SortedSpecial[i], SortedSpecial[i + 1]) by {
      forall i | 0 <= i < |SortedSpecial| - 1 ensures StrLess(SortedSpecial[i], SortedSpecial[i + 1]) {
        SortedSpecialOrdered(i);
      }
    }
    assert forall n :: 1000 <= n <= MaxSpecial ==> SpecialName(n) == SortedSpecial[SortedIndex(n)];
    SortedSpecial
  }
}
