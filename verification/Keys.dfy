/**
 The keys under which stations are filed: "<ssid>-<test>" for real stations
 (inc/wlan_emu_real_sta_mgr.h) and "<test>-<device>" for emulated ones
 (inc/wlan_emu_sta_mgr.h, src/external_agent_cci/ext_inc/wlan_ext_emu_sta_mgr.h),
 printed by snprintf into a buffer of fixed size and read back by sscanf.
 */
module Keys {
  import opened Collection
  import opened Decimal

  // ---------- C strings in buffers ----------

  /** The string a char buffer holds: everything before the first NUL. */
  function CString(buffer: seq<char>): string {
    if buffer == [] || buffer[0] == '\0' then [] else [buffer[0]] + CString(buffer[1..])
  }

  /** What snprintf keeps of a text in a buffer of the given size. */
  function Stored(text: string, size: nat): (s: string)
    requires size > 0
    ensures s <= text && |s| < size
    ensures s == text <==> |text| < size
  {
    text[..if |text| < size then |text| else size - 1]
  }

  lemma {:induction false} CStringStopsAtNul(s: string, rest: seq<char>)
    requires '\0' !in s
    ensures CString(s + ['\0'] + rest) == s
  {
    var b := s + ['\0'] + rest;
    if s != [] {
      assert b[0] == s[0] && b[1..] == s[1..] + ['\0'] + rest;
      CStringStopsAtNul(s[1..], rest);
    }
  }

  /** snprintf (section 7.21.6.5 of ISO/IEC 9899:2011) for an already formatted text. */
  method Snprintf(buffer: array<char>, text: string) returns (length: nat)
    requires buffer.Length > 0 && '\0' !in text
    modifies buffer
    ensures length == |text|
    ensures CString(buffer[..]) == Stored(text, buffer.Length)
    ensures forall i :: |Stored(text, buffer.Length)| < i < buffer.Length ==> buffer[i] == old(buffer[i])
  {
    var kept := Stored(text, buffer.Length);
    forall i | 0 <= i < |kept| {
      buffer[i] := kept[i];
    }
    buffer[|kept|] := '\0';
    assert buffer[..] == kept + ['\0'] + buffer[|kept| + 1..];
    CStringStopsAtNul(kept, buffer[|kept| + 1..]);
    return |text|;
  }

  // ---------- Keys of real stations ----------

  function SsidText(ssid: string, testId: uint32): string {
    ssid + "-" + FormatD(testId)
  }

  function SsidKey(ssid: string, testId: uint32, size: nat): string
    requires size > 0
  {
    Stored(SsidText(ssid, testId), size)
  }

  lemma FormatDHasNoNul(u: uint32)
    ensures '\0' !in FormatD(u)
  {
    SignOfPrintInt(ToInt32(u));
    var s := FormatD(u);
    assert s == [s[0]] + s[1..];
  }

  method CreateSsidKey(key: array<char>, ssid: string, testId: uint32)
    requires key.Length > 0 && '\0' !in ssid
    modifies key
    ensures CString(key[..]) == SsidKey(ssid, testId, key.Length)
    ensures var text, n := ssid + "-" + FormatD(testId), key.Length;
            CString(key[..]) == if |text| < n then text else text[..n - 1]
  {
    FormatDHasNoNul(testId);
    var _ := Snprintf(key, ssid + "-" + FormatD(testId));
  }

  /** Where the last '-' splits a text, both halves are determined. */
  lemma LastDashSplits(a: string, d: string, a': string, d': string)
    requires Digits(d) && Digits(d')
    requires a + "-" + d == a' + "-" + d'
    ensures a == a' && d == d'
  {
    var s := a + "-" + d;
    assert s[|a|] == '-' && forall i :: |a| < i < |s| ==> s[i] == d[i - |a| - 1];
    assert s[|a'|] == '-' && forall i :: |a'| < i < |s| ==> s[i] == d'[i - |a'| - 1];
    assert a == s[..|a|] && a' == s[..|a|];
    assert d == s[|a| + 1..] && d' == s[|a| + 1..];
  }

  /**
   The one way two different (SSID, test) pairs print alike: %d shows test ids of
   2^31 and above as negative, and the minus sign can also end the other SSID.
   */
  predicate SignBorrowed(ssid: string, id: uint32, ssid': string, id': uint32) {
    ssid == ssid' + "-" && 0 < id < TWO_TO_THE_31 && id + id' == TWO_TO_THE_32
  }

  lemma SsidTextByMagnitude(ssid: string, id: uint32)
    ensures var v := ToInt32(id);
            SsidText(ssid, id) == (if v < 0 then ssid + "-" else ssid) + "-" + PrintNat(if v < 0 then -v else v)
  {
    var v := ToInt32(id);
    if v < 0 {
      assert ssid + "-" + ("-" + PrintNat(-v)) == (ssid + "-") + "-" + PrintNat(-v);
    }
  }

  /** Over all SSIDs and all 32-bit test ids: exactly when two full texts coincide. */
  lemma SsidTextsCoincideIff(ssid: string, id: uint32, ssid': string, id': uint32)
    ensures SsidText(ssid, id) == SsidText(ssid', id')
       <==> (ssid == ssid' && id == id') || SignBorrowed(ssid, id, ssid', id') || SignBorrowed(ssid', id', ssid, id)
  {
    var v, v' := ToInt32(id), ToInt32(id');
    var n, n' := if v < 0 then -v else v, if v' < 0 then -v' else v';
    var a, a' := if v < 0 then ssid + "-" else ssid, if v' < 0 then ssid' + "-" else ssid';
    SsidTextByMagnitude(ssid, id);
    SsidTextByMagnitude(ssid', id');
    if SsidText(ssid, id) == SsidText(ssid', id') {
      LastDashSplits(a, PrintNat(n), a', PrintNat(n'));
      PrintNatInjective(n, n');
      if v < 0 && v' < 0 {
        assert ssid == a[..|a| - 1] && ssid' == a'[..|a'| - 1];
      }
    }
  }

  predicate SsidKeysDistinct(ssid: string, id: uint32, ssid': string, id': uint32, size: nat)
    requires size > 0
  {
    SsidKey(ssid, id, size) == SsidKey(ssid', id', size) ==> ssid == ssid' && id == id'
  }

  /** Keys of which one leaves room in the buffer are equal only as whole texts. */
  lemma SsidKeysCoincideIff(ssid: string, id: uint32, ssid': string, id': uint32, size: nat)
    requires |SsidText(ssid, id)| + 1 < size || (|SsidText(ssid, id)| < size && |SsidText(ssid', id')| < size)
    ensures SsidKey(ssid, id, size) == SsidKey(ssid', id', size)
       <==> (ssid == ssid' && id == id') || SignBorrowed(ssid, id, ssid', id') || SignBorrowed(ssid', id', ssid, id)
    ensures (id < TWO_TO_THE_31 && id' < TWO_TO_THE_31) || ssid == ssid' ==>
            SsidKeysDistinct(ssid, id, ssid', id', size)
  {
    SsidTextsCoincideIff(ssid, id, ssid', id');
  }

  /** Beyond 2^31 different SSIDs can share a key, even untruncated. */
  lemma SsidKeysCollide(ssid: string, size: nat)
    requires |ssid| + 3 < size
    ensures SsidKey(ssid + "-", 5, size) == SsidKey(ssid, 0xffff_fffb, size)
  {
    SsidTextsCoincideIff(ssid + "-", 5, ssid, 0xffff_fffb);
  }

  /** For one SSID, cut or whole: two ids share a key exactly when the printed ids agree as far as they fit. */
  lemma SameSsidKeysCoincideIff(ssid: string, id: uint32, id': uint32, size: nat)
    requires size > 0
    ensures SsidKey(ssid, id, size) == SsidKey(ssid, id', size)
       <==> |ssid| + 1 >= size || Stored(FormatD(id), size - 1 - |ssid|) == Stored(FormatD(id'), size - 1 - |ssid|)
  {
    var k, k' := SsidKey(ssid, id, size), SsidKey(ssid, id', size);
    if |ssid| + 1 >= size {
      assert k == ssid[..size - 1] + [] == k' by {
        assert SsidText(ssid, id)[..size - 1] == (ssid + "-")[..size - 1] == SsidText(ssid, id')[..size - 1];
      }
    } else {
      var room := size - 1 - |ssid|;
      assert k == ssid + "-" + Stored(FormatD(id), room);
      assert k' == ssid + "-" + Stored(FormatD(id'), room);
      assert k[|ssid| + 1..] == Stored(FormatD(id), room);
      assert k'[|ssid| + 1..] == Stored(FormatD(id'), room);
    }
  }

  /** The SSID lengths at which no id below 2^31, respectively no 32-bit id, is ever cut. */
  lemma SsidKeysFitIff(ssid: string, size: nat)
    requires size > 0
    ensures (forall id: uint32 :: id < TWO_TO_THE_31 ==> SsidKey(ssid, id, size) == SsidText(ssid, id))
            <==> |ssid| + 12 <= size
    ensures (forall id: uint32 :: SsidKey(ssid, id, size) == SsidText(ssid, id)) <==> |ssid| + 13 <= size
  {
    forall id: uint32
      ensures id < TWO_TO_THE_31 && |ssid| + 12 <= size ==> SsidKey(ssid, id, size) == SsidText(ssid, id)
      ensures |ssid| + 13 <= size ==> SsidKey(ssid, id, size) == SsidText(ssid, id)
    {
      FormatDLength(id);
    }
    TenDigits();
    ElevenCharacters();
    assert |ssid| + 12 > size ==> SsidKey(ssid, 1_000_000_000, size) != SsidText(ssid, 1_000_000_000);
    assert |ssid| + 13 > size ==> SsidKey(ssid, 0x8000_0000, size) != SsidText(ssid, 0x8000_0000);
  }

  /** Two ids that print alike but for the last of their ten, respectively eleven, characters. */
  lemma TenDigits()
    ensures |FormatD(1_000_000_000)| == |FormatD(1_000_000_001)| == 10
    ensures FormatD(1_000_000_000)[..9] == FormatD(1_000_000_001)[..9]
  {
    TenDigitNumbers();
    PrintNatLength(1_000_000_000, 10);
    PrintNatLength(1_000_000_001, 10);
    assert FormatD(1_000_000_000) == PrintNat(100_000_000) + [Digit(0)];
    assert FormatD(1_000_000_001) == PrintNat(100_000_000) + [Digit(1)];
  }

  lemma ElevenCharacters()
    ensures |FormatD(0x8000_0000)| == |FormatD(0x8000_0001)| == 11
    ensures FormatD(0x8000_0000)[..10] == FormatD(0x8000_0001)[..10]
  {
    TenDigitNumbers();
    PrintNatLength(2_147_483_648, 10);
    PrintNatLength(2_147_483_647, 10);
    assert FormatD(0x8000_0000) == "-" + PrintNat(214_748_364) + [Digit(8)];
    assert FormatD(0x8000_0001) == "-" + PrintNat(214_748_364) + [Digit(7)];
  }

  /** A string of the given length. */
  function Dots(n: nat): (s: string)
    ensures |s| == n
  {
    seq(n, _ => '.')
  }

  /**
   The keys of all SSIDs of at most so many characters and all ids below 2^31 are told
   apart exactly when the buffer has twelve characters more.
   */
  lemma SsidKeysInjectiveIff(longest: nat, size: nat)
    requires size > 0
    ensures (forall ssid: string, id: uint32, ssid': string, id': uint32 ::
               |ssid| <= longest && |ssid'| <= longest && id < TWO_TO_THE_31 && id' < TWO_TO_THE_31 ==>
                 SsidKeysDistinct(ssid, id, ssid', id', size))
       <==> longest + 12 <= size
  {
    if longest + 12 <= size {
      forall ssid: string, id: uint32, ssid': string, id': uint32
        | |ssid| <= longest && |ssid'| <= longest && id < TWO_TO_THE_31 && id' < TWO_TO_THE_31
        ensures SsidKeysDistinct(ssid, id, ssid', id', size)
      {
        SsidKeysFitIff(ssid, size);
        SsidKeysFitIff(ssid', size);
        SsidTextsCoincideIff(ssid, id, ssid', id');
      }
    } else {
      var ssid := Dots(longest);
      TenDigits();
      CutIdsCoincide(ssid, 1_000_000_000, 1_000_000_001, size);
      assert !SsidKeysDistinct(ssid, 1_000_000_000, ssid, 1_000_000_001, size);
    }
  }

  /** Ids that agree but for their last character share a key as soon as that character is cut. */
  lemma CutIdsCoincide(ssid: string, id: uint32, id': uint32, size: nat)
    requires size > 0
    requires |FormatD(id)| == |FormatD(id')| && FormatD(id)[..|FormatD(id)| - 1] == FormatD(id')[..|FormatD(id)| - 1]
    requires |ssid| + 1 + |FormatD(id)| >= size
    ensures SsidKey(ssid, id, size) == SsidKey(ssid, id', size)
  {
    SameSsidKeysCoincideIff(ssid, id, id', size);
    if |ssid| + 1 < size {
      var room := size - 2 - |ssid|;
      assert FormatD(id)[..room] == FormatD(id)[..|FormatD(id)| - 1][..room];
      assert FormatD(id')[..room] == FormatD(id')[..|FormatD(id)| - 1][..room];
    }
  }

  /** Over all 32-bit ids the keys of one SSID need thirteen characters more. */
  lemma OneSsidKeysInjectiveIff(longest: nat, size: nat)
    requires size > 0
    ensures (forall ssid: string, id: uint32, id': uint32 ::
               |ssid| <= longest ==> SsidKeysDistinct(ssid, id, ssid, id', size))
       <==> longest + 13 <= size
  {
    if longest + 13 <= size {
      forall ssid: string, id: uint32, id': uint32 | |ssid| <= longest
        ensures SsidKeysDistinct(ssid, id, ssid, id', size)
      {
        SsidKeysFitIff(ssid, size);
        SsidTextsCoincideIff(ssid, id, ssid, id');
      }
    } else {
      var ssid := Dots(longest);
      ElevenCharacters();
      CutIdsCoincide(ssid, 0x8000_0000, 0x8000_0001, size);
      assert !SsidKeysDistinct(ssid, 0x8000_0000, ssid, 0x8000_0001, size);
    }
  }

  /** Over all SSIDs and all 32-bit ids they never are told apart, unless the empty SSID is the only one. */
  lemma AllSsidKeysInjectiveIff(longest: nat, size: nat)
    requires size > 0
    ensures (forall ssid: string, id: uint32, ssid': string, id': uint32 ::
               |ssid| <= longest && |ssid'| <= longest ==> SsidKeysDistinct(ssid, id, ssid', id', size))
       <==> longest == 0 && size >= 13
  {
    if longest > 0 {
      SsidTextsCoincideIff("-", 5, "", 0xffff_fffb);
      assert !SsidKeysDistinct("-", 5, "", 0xffff_fffb, size);
    } else {
      OneSsidKeysInjectiveIff(0, size);
      if size >= 13 {
        forall ssid: string, id: uint32, ssid': string, id': uint32 | |ssid| <= 0 && |ssid'| <= 0
          ensures SsidKeysDistinct(ssid, id, ssid', id', size)
        {
          assert ssid == ssid';
          assert SsidKeysDistinct(ssid, id, ssid, id', size);
        }
      } else {
        var ssid, id: uint32, id': uint32 :| |ssid| <= 0 && !SsidKeysDistinct(ssid, id, ssid, id', size);
      }
    }
  }

  // ---------- Keys of emulated stations ----------

  function StationText(testId: uint32, devId: uint32): string {
    FormatD(testId) + "-" + FormatD(devId)
  }

  function StationKey(testId: uint32, devId: uint32, size: nat): string
    requires size > 0
  {
    Stored(StationText(testId, devId), size)
  }

  method CreateStationKey(key: array<char>, devId: uint32, testId: uint32)
    requires key.Length > 0
    modifies key
    ensures CString(key[..]) == StationKey(testId, devId, key.Length)
    ensures var text, n := FormatD(testId) + "-" + FormatD(devId), key.Length;
            CString(key[..]) == if |text| < n then text else text[..n - 1]
  {
    FormatDHasNoNul(testId);
    FormatDHasNoNul(devId);
    var _ := Snprintf(key, FormatD(testId) + "-" + FormatD(devId));
  }

  /** sscanf(key, "%d-%d", ...): the values it assigns, None for one it leaves unset. */
  function ScanKey(key: string): (Option<uint32>, Option<uint32>) {
    match ScanD(key)
    case NoMatch => (None, None)
    case Match(testId, rest) =>
      if rest == [] || rest[0] != '-' then (Some(ToUint32(testId)), None)
      else
        match ScanD(rest[1..])
        case NoMatch => (Some(ToUint32(testId)), None)
        case Match(devId, _) => (Some(ToUint32(testId)), Some(ToUint32(devId)))
  }

  function TestIdFromKey(key: string): Option<uint32> {
    ScanKey(key).0
  }

  function DevIdFromKey(key: string): Option<uint32> {
    ScanKey(key).1
  }

  lemma ToUint32Distinct(v: int, w: int)
    requires -TWO_TO_THE_31 <= v < TWO_TO_THE_31 && -TWO_TO_THE_31 <= w < TWO_TO_THE_31
    requires ToUint32(v) == ToUint32(w)
    ensures v == w
  {
  }

  /** Of a printed number's prefixes only the whole text reads back as that number. */
  lemma ReadsBackIff(u: uint32, k: nat)
    requires k <= |FormatD(u)|
    ensures var scan := ScanD(FormatD(u)[..k]);
            && (scan.Match? ==> scan.rest == [])
            && ((scan.Match? && ToUint32(scan.value) == u) <==> k == |FormatD(u)|)
  {
    var text, v := FormatD(u), ToInt32(u);
    if k == |text| {
      ScanPrinted(v, []);
      assert text[..k] == text + [];
    } else {
      ScanCut(v, k);
      var scan := ScanD(text[..k]);
      if scan.Match? && ToUint32(scan.value) == u {
        ToUint32Distinct(scan.value, v);
      }
    }
  }

  lemma ScanKeyParts(testId: uint32, tail: string)
    ensures ScanKey(FormatD(testId) + "-" + tail)
         == (Some(testId), match ScanD(tail) case NoMatch => None case Match(v, _) => Some(ToUint32(v)))
  {
    ScanPrinted(ToInt32(testId), "-" + tail);
    assert FormatD(testId) + "-" + tail == FormatD(testId) + ("-" + tail);
    assert ("-" + tail)[1..] == tail;
  }

  /** A cut key is a cut test id, or a whole test id, the separator and a possibly cut device id. */
  lemma StationKeyParts(testId: uint32, devId: uint32, size: nat)
    requires size > 0
    ensures var t, d, key := FormatD(testId), FormatD(devId), StationKey(testId, devId, size);
            if size - 1 <= |t| then key == t[..size - 1]
            else key == t + "-" + Stored(d, size - 1 - |t|)
  {
  }

  /** Test and device id survive the trip through the key exactly when their digits fit in it. */
  lemma StationKeyRoundTripIff(testId: uint32, devId: uint32, size: nat)
    requires size > 0
    ensures var key := StationKey(testId, devId, size);
            && (TestIdFromKey(key) == Some(testId) <==> |FormatD(testId)| < size)
            && (DevIdFromKey(key) == Some(devId) <==> |StationText(testId, devId)| < size)
  {
    var t, d := FormatD(testId), FormatD(devId);
    StationKeyParts(testId, devId, size);
    if size - 1 <= |t| {
      ReadsBackIff(testId, size - 1);
    } else {
      var cut := Stored(d, size - 1 - |t|);
      ScanKeyParts(testId, cut);
      ReadsBackIff(devId, |cut|);
      assert cut == d[..|cut|];
    }
  }

  // ---------- When one station key starts another ----------

  /** The separator is the first '-' after the first character, so both halves are determined. */
  lemma DashSplits(p: string, rest: string, p': string, rest': string)
    requires p != [] && Digits(p[1..]) && p' != [] && Digits(p'[1..])
    requires p + "-" + rest <= p' + "-" + rest'
    ensures p == p' && rest <= rest'
  {
    var s, s' := p + "-" + rest, p' + "-" + rest';
    assert forall i :: 0 <= i < |s| ==> s[i] == s'[i];
    assert s[|p|] == '-' && s'[|p'|] == '-';
    assert forall i :: 1 <= i < |p| ==> s[i] == p[1..][i - 1];
    assert forall i :: 1 <= i < |p'| ==> s'[i] == p'[1..][i - 1];
    assert |p| == |p'|;
    assert p == s[..|p|] && p' == s'[..|p|];
    assert rest == s[|p| + 1..] && rest' == s'[|p| + 1..];
  }

  lemma FirstDashSplits(t: uint32, rest: string, t': uint32, rest': string)
    requires FormatD(t) + "-" + rest <= FormatD(t') + "-" + rest'
    ensures t == t' && rest <= rest'
  {
    SignOfPrintInt(ToInt32(t));
    SignOfPrintInt(ToInt32(t'));
    DashSplits(FormatD(t), rest, FormatD(t'), rest');
    FormatDInjective(t, t');
  }

  /** A station key is a prefix of another exactly when the test is the same and the device number continues it. */
  lemma StationTextPrefixIff(t: uint32, d: uint32, t': uint32, d': uint32)
    ensures StationText(t, d) <= StationText(t', d') <==> t == t' && ExtendsInt(ToInt32(d'), ToInt32(d))
  {
    PrintIntPrefix(ToInt32(d), ToInt32(d'));
    if StationText(t, d) <= StationText(t', d') {
      FirstDashSplits(t, FormatD(d), t', FormatD(d'));
    }
  }

  /** t' and d' print like t and d as far as the key of t and d goes. */
  predicate PrintsAlike(t': uint32, d': uint32, t: uint32, d: uint32, size: nat)
    requires size > 0
  {
    if |FormatD(t)| + 1 < size then t' == t && Stored(FormatD(d), size - 1 - |FormatD(t)|) <= FormatD(d')
    else Stored(FormatD(t), size) <= FormatD(t')
  }

  /** A key with the separator in it. */
  lemma LongKeyPrefixIff(t: uint32, cut: string, t': uint32, d': uint32)
    ensures FormatD(t) + "-" + cut <= StationText(t', d') <==> t' == t && cut <= FormatD(d')
  {
    if FormatD(t) + "-" + cut <= StationText(t', d') {
      FirstDashSplits(t, cut, t', FormatD(d'));
    }
  }

  /** Cut or whole, a station key is a prefix of another exactly when its station prints alike. */
  lemma StationKeyPrefixIff(t: uint32, d: uint32, t': uint32, d': uint32, size: nat)
    requires size > 0
    ensures StationKey(t, d, size) <= StationKey(t', d', size) <==> PrintsAlike(t', d', t, d, size)
    ensures |StationText(t, d)| < size ==>
              (PrintsAlike(t', d', t, d, size) <==> t' == t && ExtendsInt(ToInt32(d'), ToInt32(d)))
  {
    StationKeyParts(t, d, size);
    PrefixOfStored(StationKey(t, d, size), StationText(t', d'), size);
    if |FormatD(t)| + 1 < size {
      LongKeyPrefixIff(t, Stored(FormatD(d), size - 1 - |FormatD(t)|), t', d');
    } else {
      CutTestPrefixIff(t, t', FormatD(d'), size - 1);
    }
    PrintIntPrefix(ToInt32(d), ToInt32(d'));
  }

  lemma PrefixOfStored(key: string, text: string, size: nat)
    requires |key| < size
    ensures key <= Stored(text, size) <==> key <= text
  {
  }

  /** Part of a printed test id has no separator in it. */
  lemma CutTestPrefixIff(t: uint32, t': uint32, rest: string, k: nat)
    requires k <= |FormatD(t)|
    ensures FormatD(t)[..k] <= FormatD(t') + "-" + rest <==> FormatD(t)[..k] <= FormatD(t')
  {
    var p, p' := FormatD(t)[..k], FormatD(t');
    SignOfPrintInt(ToInt32(t));
    SignOfPrintInt(ToInt32(t'));
    assert (p' + "-" + rest)[|p'|] == '-';
    assert forall i :: 0 < i < k ==> p[i] == FormatD(t)[1..][i - 1];
  }

  lemma StationTextInjective(t: uint32, d: uint32, t': uint32, d': uint32)
    requires StationText(t, d) == StationText(t', d')
    ensures t == t' && d == d'
  {
    FirstDashSplits(t, FormatD(d), t', FormatD(d'));
    FirstDashSplits(t', FormatD(d'), t, FormatD(d));
    FormatDInjective(d, d');
  }
}
