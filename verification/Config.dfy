/**
 ConfigParams of Config.cpp: a struct that is kept in flash, guarded by a header and a CRC.
 */
module Config {
  import opened Crc
  import opened Wrappers

  const DEFAULT_HEADER: bv16 := 0xBEEF
  const COVERED := 116   // from the header up to the CRC
  const STORED := 118

  /** Everything between _header and _crc16, with the two bytes of padding the compiler puts
      in front of _frameUpCount. */
  datatype Settings = Settings(
    defaultFixInterval: bv16, alternativeFixInterval: bv16,
    fromHours: bv8, fromMinutes: bv8, toHours: bv8, toMinutes: bv8,
    gpsFixTimeout: bv16,
    isLedEnabled: bv8, isOtaaEnabled: bv8, isGpsEnabled: bv8, isAckEnabled: bv8, isDbgEnabled: bv8,
    devAddrOrEUI: seq<bv8>, appSKeyOrEUI: seq<bv8>, nwSKeyOrAppKey: seq<bv8>,
    chargeOffset: bv32,
    coordinateUploadCount: bv8, repeatCount: bv8,
    padding: seq<bv8>,
    frameUpCount: bv32, frameDownCount: bv32)

  predicate Sized(s: Settings) {
    |s.devAddrOrEUI| == 17 && |s.appSKeyOrEUI| == 33 && |s.nwSKeyOrAppKey| == 33 && |s.padding| == 2
  }

  // ---------- The struct as bytes, least significant first ----------

  function Byte0(x: bv32): bv8 { (x & 0xFF) as bv8 }
  function Byte1(x: bv32): bv8 { ((x >> 8) & 0xFF) as bv8 }
  function Byte2(x: bv32): bv8 { ((x >> 16) & 0xFF) as bv8 }
  function Byte3(x: bv32): bv8 { ((x >> 24) & 0xFF) as bv8 }

  function Long(b0: bv8, b1: bv8, b2: bv8, b3: bv8): bv32 {
    (b0 as bv32) | ((b1 as bv32) << 8) | ((b2 as bv32) << 16) | ((b3 as bv32) << 24)
  }

  function Low(x: bv16): bv8 { (x & 0xFF) as bv8 }
  function High(x: bv16): bv8 { ((x >> 8) & 0xFF) as bv8 }

  lemma WordBytes(x: bv16, high: bv8, low: bv8)
    ensures Big(High(x), Low(x)) == x
    ensures High(Big(high, low)) == high && Low(Big(high, low)) == low
  {
  }

  lemma LongBytes(x: bv32)
    ensures Long(Byte0(x), Byte1(x), Byte2(x), Byte3(x)) == x
  {
  }

  lemma BytesOfLong(b0: bv8, b1: bv8, b2: bv8, b3: bv8)
    ensures Byte0(Long(b0, b1, b2, b3)) == b0 && Byte1(Long(b0, b1, b2, b3)) == b1
    ensures Byte2(Long(b0, b1, b2, b3)) == b2 && Byte3(Long(b0, b1, b2, b3)) == b3
  {
  }

  /** Bytes 0 to 16. */
  function Front(header: bv16, s: Settings): (b: seq<bv8>)
    ensures |b| == 17
  {
    [Low(header), High(header),
     Low(s.defaultFixInterval), High(s.defaultFixInterval),
     Low(s.alternativeFixInterval), High(s.alternativeFixInterval),
     s.fromHours, s.fromMinutes, s.toHours, s.toMinutes,
     Low(s.gpsFixTimeout), High(s.gpsFixTimeout),
     s.isLedEnabled, s.isOtaaEnabled, s.isGpsEnabled, s.isAckEnabled, s.isDbgEnabled]
  }

  /** Bytes 100 to 115. */
  function Back(s: Settings): (b: seq<bv8>)
    requires |s.padding| == 2
    ensures |b| == 16
  {
    [Byte0(s.chargeOffset), Byte1(s.chargeOffset), Byte2(s.chargeOffset), Byte3(s.chargeOffset),
     s.coordinateUploadCount, s.repeatCount, s.padding[0], s.padding[1],
     Byte0(s.frameUpCount), Byte1(s.frameUpCount), Byte2(s.frameUpCount), Byte3(s.frameUpCount),
     Byte0(s.frameDownCount), Byte1(s.frameDownCount), Byte2(s.frameDownCount), Byte3(s.frameDownCount)]
  }

  /** What the CRC covers. */
  function Image(header: bv16, s: Settings): (b: seq<bv8>)
    requires Sized(s)
    ensures |b| == COVERED
  {
    Front(header, s) + s.devAddrOrEUI + s.appSKeyOrEUI + s.nwSKeyOrAppKey + Back(s)
  }

  function HeaderOf(b: seq<bv8>): bv16
    requires |b| >= 2
  {
    Big(b[1], b[0])
  }

  function SettingsOf(b: seq<bv8>): (s: Settings)
    requires |b| >= COVERED
    ensures Sized(s)
  {
    Settings(Big(b[3], b[2]), Big(b[5], b[4]), b[6], b[7], b[8], b[9], Big(b[11], b[10]),
             b[12], b[13], b[14], b[15], b[16],
             b[17..34], b[34..67], b[67..100],
             Long(b[100], b[101], b[102], b[103]), b[104], b[105], b[106..108],
             Long(b[108], b[109], b[110], b[111]), Long(b[112], b[113], b[114], b[115]))
  }

  lemma Parts(header: bv16, s: Settings, rest: seq<bv8>)
    requires Sized(s)
    ensures var b := Image(header, s) + rest;
            && b[..17] == Front(header, s)
            && b[17..34] == s.devAddrOrEUI && b[34..67] == s.appSKeyOrEUI && b[67..100] == s.nwSKeyOrAppKey
            && b[100..116] == Back(s) && b[..COVERED] == Image(header, s) && b[COVERED..] == rest
  {
    hide Front, Back;
  }

  /** The fields at the front, from their bytes. */
  lemma FrontFields(header: bv16, s: Settings, b: seq<bv8>)
    requires |b| >= COVERED && b[..17] == Front(header, s)
    ensures HeaderOf(b) == header
    ensures var t := SettingsOf(b);
            && t.defaultFixInterval == s.defaultFixInterval && t.alternativeFixInterval == s.alternativeFixInterval
            && t.fromHours == s.fromHours && t.fromMinutes == s.fromMinutes
            && t.toHours == s.toHours && t.toMinutes == s.toMinutes && t.gpsFixTimeout == s.gpsFixTimeout
            && t.isLedEnabled == s.isLedEnabled && t.isOtaaEnabled == s.isOtaaEnabled
            && t.isGpsEnabled == s.isGpsEnabled && t.isAckEnabled == s.isAckEnabled && t.isDbgEnabled == s.isDbgEnabled
  {
    hide Big, Low, High, Long;
    var k := Front(header, s);
    assert b[0] == k[0] && b[1] == k[1] && b[2] == k[2] && b[3] == k[3]
           && b[4] == k[4] && b[5] == k[5] && b[6] == k[6] && b[7] == k[7]
           && b[8] == k[8] && b[9] == k[9] && b[10] == k[10] && b[11] == k[11]
           && b[12] == k[12] && b[13] == k[13] && b[14] == k[14] && b[15] == k[15]
           && b[16] == k[16];
    WordBytes(header, 0, 0);
    WordBytes(s.defaultFixInterval, 0, 0);
    WordBytes(s.alternativeFixInterval, 0, 0);
    WordBytes(s.gpsFixTimeout, 0, 0);
  }

  /** The fields at the back. */
  lemma BackFields(s: Settings, b: seq<bv8>)
    requires |b| >= COVERED && |s.padding| == 2 && b[100..116] == Back(s)
    ensures var t := SettingsOf(b);
            && t.chargeOffset == s.chargeOffset && t.coordinateUploadCount == s.coordinateUploadCount
            && t.repeatCount == s.repeatCount && t.padding == s.padding
            && t.frameUpCount == s.frameUpCount && t.frameDownCount == s.frameDownCount
  {
    hide Big, Long, Byte0, Byte1, Byte2, Byte3;
    var k := Back(s);
    assert b[100] == k[0] && b[101] == k[1] && b[102] == k[2] && b[103] == k[3]
           && b[104] == k[4] && b[105] == k[5] && b[106] == k[6] && b[107] == k[7]
           && b[108] == k[8] && b[109] == k[9] && b[110] == k[10] && b[111] == k[11]
           && b[112] == k[12] && b[113] == k[13] && b[114] == k[14] && b[115] == k[15];
    LongBytes(s.chargeOffset);
    LongBytes(s.frameUpCount);
    LongBytes(s.frameDownCount);
    assert b[106..108] == [k[6], k[7]] == s.padding;
  }

  /** The fields survive the trip through memory. */
  lemma SettingsOfImage(header: bv16, s: Settings, rest: seq<bv8>)
    requires Sized(s)
    ensures HeaderOf(Image(header, s) + rest) == header && SettingsOf(Image(header, s) + rest) == s
  {
    var b := Image(header, s) + rest;
    Parts(header, s, rest);
    StringFields(b);
    hide Image, Front, Back, HeaderOf, SettingsOf;
    FrontFields(header, s, b);
    BackFields(s, b);
  }

  lemma StringFields(b: seq<bv8>)
    requires |b| >= COVERED
    ensures var t := SettingsOf(b);
            t.devAddrOrEUI == b[17..34] && t.appSKeyOrEUI == b[34..67] && t.nwSKeyOrAppKey == b[67..100]
  {
    hide Big, Long;
  }

  lemma FrontOf(b: seq<bv8>)
    requires |b| == COVERED
    ensures Front(HeaderOf(b), SettingsOf(b)) == b[..17]
  {
    hide Big, Low, High, Long;
    WordBytes(0, b[1], b[0]);
    WordBytes(0, b[3], b[2]);
    WordBytes(0, b[5], b[4]);
    WordBytes(0, b[11], b[10]);
  }

  lemma BackOf(b: seq<bv8>)
    requires |b| == COVERED
    ensures Back(SettingsOf(b)) == b[100..116]
  {
    hide Big, Long, Byte0, Byte1, Byte2, Byte3;
    BytesOfLong(b[100], b[101], b[102], b[103]);
    BytesOfLong(b[108], b[109], b[110], b[111]);
    BytesOfLong(b[112], b[113], b[114], b[115]);
  }

  /** And any bytes are the image of what they mean. */
  lemma ImageOfSettings(b: seq<bv8>)
    requires |b| == COVERED
    ensures Image(HeaderOf(b), SettingsOf(b)) == b
  {
    StringFields(b);
    hide Front, Back, SettingsOf, HeaderOf;
    FrontOf(b);
    BackOf(b);
    assert b == b[..17] + b[17..34] + b[34..67] + b[67..100] + b[100..116];
  }

  // ---------- What is accepted ----------

  /** The bytes that commit writes. */
  function Committed(s: Settings): (b: seq<bv8>)
    requires Sized(s)
    ensures |b| == STORED
  {
    var image := Image(DEFAULT_HEADER, s);
    image + [Low(From(0, image)), High(From(0, image))]
  }

  /** The check of `read`. */
  predicate Accepted(b: seq<bv8>)
    requires |b| == STORED
  {
    HeaderOf(b) == DEFAULT_HEADER && Big(b[117], b[116]) == From(0, b[..COVERED])
  }

  /** What commit writes is accepted, and read back unchanged. */
  lemma CommittedAccepted(s: Settings)
    requires Sized(s)
    ensures Accepted(Committed(s)) && SettingsOf(Committed(s)) == s
  {
    hide Image, From, SettingsOf, Big, Low, High;
    var image := Image(DEFAULT_HEADER, s);
    var crc := From(0, image);
    SettingsOfImage(DEFAULT_HEADER, s, [Low(crc), High(crc)]);
    assert Committed(s)[..COVERED] == image;
    WordBytes(crc, 0, 0);
  }

  /** Nothing else is accepted. */
  lemma AcceptedCommitted(b: seq<bv8>)
    requires |b| == STORED
    ensures Accepted(b) <==> b == Committed(SettingsOf(b))
  {
    hide Image, From, SettingsOf, Big, Low, High, HeaderOf;
    var image := b[..COVERED];
    SameMeaning(b);
    ImageOfSettings(image);
    assert b == image + [b[116], b[117]];
    WordBytes(From(0, image), b[117], b[116]);
    CommittedAccepted(SettingsOf(b));
  }

  lemma SameMeaning(b: seq<bv8>)
    requires |b| == STORED
    ensures HeaderOf(b) == HeaderOf(b[..COVERED]) && SettingsOf(b) == SettingsOf(b[..COVERED])
  {
    hide Big, Long;
    var c := b[..COVERED];
    assert c[17..34] == b[17..34] && c[34..67] == b[34..67] && c[67..100] == b[67..100] && c[106..108] == b[106..108];
  }

  // ---------- The same, byte by byte ----------

  function WordAt(b: seq<bv8>, k: nat): bv16
    requires k + 1 < |b|
  {
    (b[k] as bv16) | ((b[k + 1] as bv16) << 8)
  }

  function LongAt(b: seq<bv8>, k: nat): bv32
    requires k + 3 < |b|
  {
    (b[k] as bv32) | ((b[k + 1] as bv32) << 8) | ((b[k + 2] as bv32) << 16) | ((b[k + 3] as bv32) << 24)
  }

  /** The stored bytes: 0xBEEF, the members of the struct at their places, least significant
      byte first, and the CRC of all that. */
  predicate OnFlash(b: seq<bv8>, s: Settings) {
    && |b| == 118 && WordAt(b, 0) == 0xBEEF && MembersOnFlash(b, s)
    && WordBits(WordAt(b, 116), 16) == Remainder(DataBits(b[..116]) + SixteenZeros(), Divisor())
  }

  predicate MembersOnFlash(b: seq<bv8>, s: Settings)
    requires |b| == 118
  {
    && WordAt(b, 2) == s.defaultFixInterval && WordAt(b, 4) == s.alternativeFixInterval
    && b[6] == s.fromHours && b[7] == s.fromMinutes && b[8] == s.toHours && b[9] == s.toMinutes
    && WordAt(b, 10) == s.gpsFixTimeout
    && b[12] == s.isLedEnabled && b[13] == s.isOtaaEnabled && b[14] == s.isGpsEnabled
    && b[15] == s.isAckEnabled && b[16] == s.isDbgEnabled
    && b[17..34] == s.devAddrOrEUI && b[34..67] == s.appSKeyOrEUI && b[67..100] == s.nwSKeyOrAppKey
    && LongAt(b, 100) == s.chargeOffset
    && b[104] == s.coordinateUploadCount && b[105] == s.repeatCount && b[106..108] == s.padding
    && LongAt(b, 108) == s.frameUpCount && LongAt(b, 112) == s.frameDownCount
  }

  /** `read` accepts exactly the bytes that are on flash for some settings, and takes these. */
  lemma AcceptedOnFlash(b: seq<bv8>, s: Settings)
    requires |b| == STORED
    ensures OnFlash(b, s) <==> Accepted(b) && s == SettingsOf(b)
  {
    hide WordAt, Big, WordBits, Remainder, DataBits, Divisor, SixteenZeros, From, SettingsOf, MembersOnFlash;
    MembersAre(b, s);
    WordIs(b, 0);
    WordIs(b, 116);
    OnlyCrc(b[..116], WordAt(b, 116));
  }

  lemma WordIs(b: seq<bv8>, k: nat)
    requires k + 1 < |b|
    ensures WordAt(b, k) == Big(b[k + 1], b[k])
  {
    SameWord(b[k + 1], b[k]);
    hide Big;
  }

  lemma SameWord(high: bv8, low: bv8)
    ensures Big(high, low) == (low as bv16) | ((high as bv16) << 8)
  {
  }

  lemma LongIs(b: seq<bv8>, k: nat)
    requires k + 3 < |b|
    ensures LongAt(b, k) == Long(b[k], b[k + 1], b[k + 2], b[k + 3])
  {
  }

  lemma MembersAre(b: seq<bv8>, s: Settings)
    requires |b| == STORED
    ensures MembersOnFlash(b, s) <==> s == SettingsOf(b)
  {
    hide WordAt, LongAt, Big, Long;
    WordIs(b, 2);
    WordIs(b, 4);
    WordIs(b, 10);
    LongIs(b, 100);
    LongIs(b, 108);
    LongIs(b, 112);
  }

  /** Damage to any one or two adjacent bytes under the CRC is noticed. */
  lemma DamageNoticed(s: Settings, i: nat, b1: bv8, b2: bv8)
    requires Sized(s) && i + 1 < COVERED && (b1, b2) != (Committed(s)[i], Committed(s)[i + 1])
    ensures !Accepted(Committed(s)[i := b1][i + 1 := b2])
  {
    hide Image, From, Big, Low, High, HeaderOf;
    var good := Committed(s);
    var bad := good[i := b1][i + 1 := b2];
    var pre, post := good[..i], good[i + 2..COVERED];
    assert good[..COVERED] == pre + [good[i], good[i + 1]] + post;
    assert bad[..COVERED] == pre + [b1, b2] + post;
    AdjacentChangeDetected(pre, good[i], good[i + 1], b1, b2, post);
    CommittedAccepted(s);
  }

  /** So is damage to any single byte, the stored CRC included. */
  lemma OneByteNoticed(s: Settings, i: nat, b: bv8)
    requires Sized(s) && i < STORED && b != Committed(s)[i]
    ensures !Accepted(Committed(s)[i := b])
  {
    hide Image, From, Big, Low, High, HeaderOf;
    var good := Committed(s);
    if i + 1 < COVERED {
      assert good[i := b] == good[i := b][i + 1 := good[i + 1]];
      DamageNoticed(s, i, b, good[i + 1]);
    } else if i < COVERED {
      assert good[i := b] == good[i - 1 := good[i - 1]][i := b];
      DamageNoticed(s, i - 1, good[i - 1], b);
    } else {
      var bad := good[i := b];
      CommittedAccepted(s);
      assert bad[..COVERED] == good[..COVERED];
      if Big(bad[117], bad[116]) == Big(good[117], good[116]) {
        BigInjective(bad[117], bad[116], good[117], good[116]);
      }
    }
  }

  lemma CommittedOnFlash(s: Settings)
    requires Sized(s)
    ensures OnFlash(Committed(s), s)
  {
    hide Committed, Accepted, SettingsOf, OnFlash;
    CommittedAccepted(s);
    AcceptedOnFlash(Committed(s), s);
  }

  /** What `read` finds: settings if the bytes are accepted, and members in any case. */
  lemma ReadBytes(b: seq<bv8>)
    requires |b| == STORED
    ensures forall s: Settings :: OnFlash(b, s) <==> Accepted(b) && s == SettingsOf(b)
    ensures MembersOnFlash(b, SettingsOf(b))
  {
    hide OnFlash, MembersOnFlash, Accepted, SettingsOf;
    MembersAre(b, SettingsOf(b));
    forall s: Settings
      ensures OnFlash(b, s) <==> Accepted(b) && s == SettingsOf(b)
    {
      AcceptedOnFlash(b, s);
    }
  }

  lemma AcceptedIs(b: seq<bv8>)
    requires |b| == STORED
    ensures Accepted(b) <==> HeaderOf(b) == DEFAULT_HEADER && Big(b[117], b[116]) == From(0, b[..COVERED])
  {
  }

  // ---------- The class ----------

  /** n - 1 characters '0' and a NUL. */
  function Zeros(n: nat): (z: seq<bv8>)
    requires n > 0
    ensures |z| == n
  {
    seq(n, i => if i < n - 1 then 0x30 else 0)
  }

  /** The fields that `reset` sets; the frame counters keep their values. */
  function Defaults(s: Settings): (d: Settings)
    requires Sized(s)
    ensures Sized(d) && d.frameUpCount == s.frameUpCount && d.frameDownCount == s.frameDownCount
  {
    Settings(15, 0, 0, 0, 0, 0, 120, 0, 0, 0, 0, 0, Zeros(17), Zeros(33), Zeros(33), 0, 1, 5,
             s.padding, s.frameUpCount, s.frameDownCount)
  }

  /** A key of '0' characters and the terminator. */
  predicate ZeroKey(z: seq<bv8>) {
    z != [] && z[|z| - 1] == 0 && forall i :: 0 <= i < |z| - 1 ==> z[i] == 0x30
  }

  /** The settings of a device that was never configured: a fix every 15 minutes with up to 120
      seconds for it, no alternative fix, everything switched off, keys of zeros, one
      coordinate an upload and five repeats. */
  predicate Factory(s: Settings) {
    && s.defaultFixInterval == 15 && s.alternativeFixInterval == 0
    && s.fromHours == 0 && s.fromMinutes == 0 && s.toHours == 0 && s.toMinutes == 0
    && s.gpsFixTimeout == 120
    && s.isLedEnabled == 0 && s.isOtaaEnabled == 0 && s.isGpsEnabled == 0
    && s.isAckEnabled == 0 && s.isDbgEnabled == 0
    && |s.devAddrOrEUI| == 17 && ZeroKey(s.devAddrOrEUI)
    && |s.appSKeyOrEUI| == 33 && ZeroKey(s.appSKeyOrEUI)
    && |s.nwSKeyOrAppKey| == 33 && ZeroKey(s.nwSKeyOrAppKey)
    && s.chargeOffset == 0 && s.coordinateUploadCount == 1 && s.repeatCount == 5
  }

  /** Factory settings with the frame counters and the padding of `s`, after the callback. */
  ghost predicate FactoryReset(callback: Option<Settings -> Settings>, s: Settings, result: Settings) {
    exists d: Settings ::
      && Factory(d) && d.padding == s.padding
      && d.frameUpCount == s.frameUpCount && d.frameDownCount == s.frameDownCount
      && result == if callback.Some? then callback.value(d) else d
  }

  lemma DefaultsAreFactory(s: Settings)
    requires Sized(s)
    ensures Factory(Defaults(s)) && Defaults(s).padding == s.padding
  {
  }

  class ConfigParams {
    var header: bv16
    var settings: Settings
    var crc16: bv16
    var needsCommit: bool
    var resetCallback: Option<Settings -> Settings>  // what the callback makes of the settings
    const flash: array<bv8>

    ghost predicate Valid()
      reads this
    {
      && Sized(settings) && flash.Length == STORED
      && (resetCallback.Some? ==> forall s :: Sized(s) ==> Sized(resetCallback.value(s)))
    }

    ghost function AfterReset(s: Settings): Settings
      requires Sized(s)
      reads this
    {
      if resetCallback.Some? then resetCallback.value(Defaults(s)) else Defaults(s)
    }

    constructor (settings: Settings, resetCallback: Option<Settings -> Settings>)
      requires Sized(settings)
      requires resetCallback.Some? ==> forall s :: Sized(s) ==> Sized(resetCallback.value(s))
      ensures Valid() && fresh(flash) && this.settings == settings && !needsCommit
    {
      this.settings, this.resetCallback := settings, resetCallback;
      header, crc16, needsCommit := 0, 0, false;
      flash := new bv8[STORED];
    }

    method Read()
      requires Valid()
      modifies this`header, this`settings, this`crc16, this`needsCommit
      ensures Valid()
      ensures Accepted(flash[..]) ==> settings == SettingsOf(flash[..]) && needsCommit == old(needsCommit)
      ensures !Accepted(flash[..]) ==> settings == AfterReset(SettingsOf(flash[..])) && needsCommit
      ensures forall s: Settings :: OnFlash(flash[..], s) ==> settings == s && needsCommit == old(needsCommit)
      ensures (forall s: Settings :: !OnFlash(flash[..], s)) ==>
                needsCommit && exists s: Settings :: MembersOnFlash(flash[..], s)
                                                     && FactoryReset(resetCallback, s, settings)
    {
      hide SettingsOf, HeaderOf, Image, Big, From, Defaults, OnFlash, MembersOnFlash, FactoryReset, Accepted,
           WordBits, Remainder, DataBits, Divisor, SixteenZeros;
      ReadBytes(flash[..]);
      ghost var b := flash[..];
      header := HeaderOf(flash[..]);
      settings := SettingsOf(flash[..]);
      crc16 := Big(flash[117], flash[116]);
      var calculated := Crc16(Image(header, settings));
      SameMeaning(b);
      ImageOfSettings(b[..COVERED]);
      assert Accepted(b) <==> header == DEFAULT_HEADER && crc16 == calculated by {
        AcceptedIs(b);
      }
      assert Accepted(b) <==> OnFlash(b, SettingsOf(b));
      if header != DEFAULT_HEADER || crc16 != calculated {
        Reset();
      }
    }

    method Reset()
      requires Valid()
      modifies this`settings, this`needsCommit
      ensures Valid() && settings == old(AfterReset(settings)) && needsCommit
      ensures FactoryReset(resetCallback, old(settings), settings)
    {
      DefaultsAreFactory(settings);
      ghost var d := Defaults(settings);
      settings := settings.(
        defaultFixInterval := 15, alternativeFixInterval := 0,
        fromHours := 0, fromMinutes := 0, toHours := 0, toMinutes := 0,
        gpsFixTimeout := 120,
        isLedEnabled := 0, isOtaaEnabled := 0, isGpsEnabled := 0, isAckEnabled := 0, isDbgEnabled := 0);
      settings := settings.(devAddrOrEUI := Zeros(17), appSKeyOrEUI := Zeros(33), nwSKeyOrAppKey := Zeros(33));
      settings := settings.(chargeOffset := 0, coordinateUploadCount := 1, repeatCount := 5);
      assert settings == d;
      if resetCallback.Some? {
        settings := resetCallback.value(settings);
      }
      needsCommit := true;
    }

    method Commit(forced: bool)
      requires Valid()
      modifies this`header, this`crc16, this`needsCommit, flash
      ensures Valid()
      ensures forced || old(needsCommit) ==> flash[..] == Committed(settings) && !needsCommit
      ensures forced || old(needsCommit) ==> OnFlash(flash[..], settings)
      ensures !forced && !old(needsCommit) ==> flash[..] == old(flash[..]) && !needsCommit
    {
      hide Image, From, Low, High, OnFlash;
      CommittedOnFlash(settings);
      if !forced && !needsCommit {
        return;
      }
      header := DEFAULT_HEADER;
      crc16 := Crc16(Image(header, settings));
      var bytes := Image(header, settings) + [Low(crc16), High(crc16)];
      forall i | 0 <= i < STORED {
        flash[i] := bytes[i];
      }
      assert flash[..] == bytes;
      needsCommit := false;
    }

    /** A restart: whatever commit wrote, read brings back. */
    method CommitThenRead(other: ConfigParams)
      requires Valid() && other.Valid() && other.flash == flash && other != this
      modifies this`header, this`crc16, this`needsCommit, flash
      modifies other`header, other`settings, other`crc16, other`needsCommit
      ensures other.settings == settings == old(settings)
    {
      Commit(true);
      CommittedAccepted(settings);
      other.Read();
    }
  }
}
