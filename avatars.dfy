/**
 Deterministic avatar derivation (lib/avatars.ts): the 32-bit string hash
 `hashCode`, the DiceBear URL builder `generateAvatar`, and `getUserAvatar`,
 which picks a style and a background colour from two hashes of the user id.

 `hashCode` is a loop that updates an accumulator, so it is the method
 `HashCode`, proved against the function `Hash`; `Hash` is in turn proved
 equal to the classic Java string hash, the sum of `s[i] * 31^(n-1-i)`
 truncated to a signed 32-bit integer.
 */
module Avatars {
  import opened JsRuntime
  import opened FormUrlEncoded

  // ---------------------------------------------------------------- hashCode

  /** One turn of the loop: `hash = ((hash << 5) - hash) + char; hash = hash & hash;`.
      The intermediate sum stays well inside the range where doubles are exact. */
  function HashStep(hash: int, code: CodeUnit): (r: int)
    ensures IsInt32(r)
  {
    var h := ShiftLeft5(hash) - hash + code as int;
    BitAnd(h, h)
  }

  /** The loop run from accumulator `hash` over the code units `units`. */
  function HashFold(hash: int, units: seq<CodeUnit>): (r: int)
    ensures IsInt32(hash) ==> IsInt32(r)
    ensures units != [] ==> IsInt32(r)
    decreases |units|
  {
    if units == [] then hash else HashFold(HashStep(hash, units[0]), units[1..])
  }

  /** The value `hashCode` returns for a string with these code units. */
  function Hash(units: seq<CodeUnit>): (r: int)
    ensures IsInt32(r)
    ensures units == [] ==> r == 0
  {
    HashFold(0, units)
  }

  function StringHash(s: string): (r: int)
    ensures IsInt32(r)
  {
    Hash(CodeUnits(s))
  }

  /** The step as written is the Java step `31 * hash + c`, truncated to 32 bits. */
  lemma HashStepIsJavaStep(hash: int, code: CodeUnit)
    ensures HashStep(hash, code) == ToInt32(31 * hash + code as int)
  {
    var h := ShiftLeft5(hash) - hash + code as int;
    BitAndSelf(h);
    assert (31 * hash + code as int) - h == 32 * hash - ShiftLeft5(hash);
    ToInt32Congruent(31 * hash + code as int, h);
  }

  /** Folding over a concatenation folds over the first part, then over the second. */
  lemma {:induction false} HashFoldAppend(hash: int, a: seq<CodeUnit>, b: seq<CodeUnit>)
    ensures HashFold(hash, a + b) == HashFold(HashFold(hash, a), b)
    decreases |a|
  {
    if a == [] {
      assert a + b == b;
    } else {
      assert (a + b)[0] == a[0];
      assert (a + b)[1..] == a[1..] + b;
      HashFoldAppend(HashStep(hash, a[0]), a[1..], b);
    }
  }

  /** One more code unit is one more turn of the loop. */
  lemma HashSnoc(units: seq<CodeUnit>, code: CodeUnit)
    ensures Hash(units + [code]) == HashStep(Hash(units), code)
  {
    HashFoldAppend(0, units, [code]);
    assert HashFold(Hash(units), [code]) == HashFold(HashStep(Hash(units), code), []);
  }

  /** `hashCode(s + c) == ToInt32(31 * hashCode(s) + c)`. */
  lemma HashSnocJava(units: seq<CodeUnit>, code: CodeUnit)
    ensures Hash(units + [code]) == ToInt32(31 * Hash(units) + code as int)
  {
    HashSnoc(units, code);
    HashStepIsJavaStep(Hash(units), code);
  }

  function Pow31(n: nat): (r: nat)
    ensures r >= 1
  {
    if n == 0 then 1 else 31 * Pow31(n - 1)
  }

  /** The Java string hash before truncation: `s[0]*31^(n-1) + s[1]*31^(n-2) + ... + s[n-1]`. */
  function JavaPoly(units: seq<CodeUnit>): (r: int)
    ensures r >= 0
  {
    if units == [] then 0 else units[0] as int * Pow31(|units| - 1) + JavaPoly(units[1..])
  }

  lemma {:induction false} JavaPolySnoc(units: seq<CodeUnit>, code: CodeUnit)
    ensures JavaPoly(units + [code]) == 31 * JavaPoly(units) + code as int
  {
    var s := units + [code];
    if units == [] {
      assert s[1..] == [];
    } else {
      assert s[0] == units[0];
      assert s[1..] == units[1..] + [code];
      JavaPolySnoc(units[1..], code);
      var p := Pow31(|units| - 1);
      assert Pow31(|s| - 1) == 31 * p;
      assert units[0] as int * (31 * p) == 31 * (units[0] as int * p);
    }
  }

  /** `hashCode` is the Java string hash truncated to a signed 32-bit integer. */
  lemma {:induction false} HashIsJavaHash(units: seq<CodeUnit>)
    ensures Hash(units) == ToInt32(JavaPoly(units))
    decreases |units|
  {
    if units != [] {
      var init, last := units[..|units| - 1], units[|units| - 1];
      assert units == init + [last];
      HashIsJavaHash(init);
      HashSnocJava(init, last);
      JavaPolySnoc(init, last);
      var p := JavaPoly(init);
      var t := ToInt32(p);
      assert (31 * p + last as int) - (31 * t + last as int) == 31 * (p - t);
      var k := (p - t) / TWO_32;
      assert p - t == k * TWO_32;
      assert 31 * (p - t) == (31 * k) * TWO_32;
      ModShift(0, 31 * k);
      ToInt32Congruent(31 * p + last as int, 31 * t + last as int);
    }
  }

  /** `hashCode(str)`: the loop over the string's UTF-16 code units. */
  method HashCode(str: string) returns (hash: int)
    ensures hash == StringHash(str)
    ensures IsInt32(hash)
  {
    var units := CodeUnits(str);
    hash := 0;
    for i := 0 to |units|
      invariant hash == Hash(units[..i])
    {
      var code := units[i];
      ghost var prefix := units[..i];
      assert units[..i + 1] == prefix + [code];
      HashSnoc(prefix, code);
      hash := ShiftLeft5(hash) - hash + code as int;
      hash := BitAnd(hash, hash);
      assert hash == HashStep(Hash(prefix), code);
    }
    assert units[..|units|] == units;
  }

  // ---------------------------------------------------------------- generateAvatar

  /** The `AvatarStyle` union of style names. */
  datatype AvatarStyle =
    | Adventurer | AdventurerNeutral | BigEars | BigSmile | Bottts | Croodles
    | FunEmoji | Icons | Identicon | Initials | Lorelei | Micah | Miniavs
    | OpenPeeps | Personas | PixelArt | Shapes | Thumbs

  /** Different styles have different names, so the URL path identifies the style. */
  lemma StyleNameInjective(a: AvatarStyle, b: AvatarStyle)
    requires StyleName(a) == StyleName(b)
    ensures a == b
  {
  }

  /** The string literal of each style, as it appears in the URL path. */
  function StyleName(style: AvatarStyle): string {
    match style
    case Adventurer => "adventurer"
    case AdventurerNeutral => "adventurer-neutral"
    case BigEars => "big-ears"
    case BigSmile => "big-smile"
    case Bottts => "bottts"
    case Croodles => "croodles"
    case FunEmoji => "fun-emoji"
    case Icons => "icons"
    case Identicon => "identicon"
    case Initials => "initials"
    case Lorelei => "lorelei"
    case Micah => "micah"
    case Miniavs => "miniavs"
    case OpenPeeps => "open-peeps"
    case Personas => "personas"
    case PixelArt => "pixel-art"
    case Shapes => "shapes"
    case Thumbs => "thumbs"
  }

  const DEFAULT_STYLE: AvatarStyle := Adventurer

  const BACKGROUND_COLORS: seq<string> := [
    "b6e3f4", "c0aede", "ffd5dc", "ffdfbf",
    "d1f7c4", "f4c1d8", "f2c4de", "cedaff"
  ]

  const AVATAR_STYLES: seq<AvatarStyle> := [
    Adventurer, AdventurerNeutral, BigSmile, Micah, Miniavs, PixelArt
  ]

  const BASE_URL: string := "https://api.dicebear.com/7.x"

  /** `AvatarConfig`: every field may be left undefined. */
  datatype AvatarConfig = AvatarConfig(style: Option<AvatarStyle>, backgroundColor: Option<string>, seed: Option<string>)

  /** The configuration `generateAvatar` uses when called without one (`config = {}`). */
  const EMPTY_CONFIG: AvatarConfig := AvatarConfig(None, None, None)

  /** What `Math.random()` would contribute to a missing default: the index
      `Math.floor(Math.random() * BACKGROUND_COLORS.length)` and the string
      `Math.random().toString(36).substring(7)`. */
  datatype RandomDraw = RandomDraw(colorIndex: nat, seed: string)

  /** The query parameters, in the order of the object literal. */
  function AvatarParams(seed: string, backgroundColor: string): seq<(string, string)> {
    [("seed", seed), ("backgroundColor", backgroundColor), ("radius", "50"), ("size", "128")]
  }

  /** `generateAvatar(config)`; `draw` stands for the random defaults. */
  function GenerateAvatar(config: AvatarConfig, draw: RandomDraw): string
    requires draw.colorIndex < |BACKGROUND_COLORS|
  {
    var style := config.style.GetOr(DEFAULT_STYLE);
    var backgroundColor := config.backgroundColor.GetOr(BACKGROUND_COLORS[draw.colorIndex]);
    var seed := config.seed.GetOr(draw.seed);
    BASE_URL + "/" + StyleName(style) + "/svg?" + Serialize(AvatarParams(seed, backgroundColor))
  }

  /** The documented shape of an avatar URL:
      `https://api.dicebear.com/7.x/<style>/svg?seed=<s>&backgroundColor=<b>&radius=50&size=128`. */
  function AvatarQuery(seed: string, backgroundColor: string): string {
    "seed=" + Encode(seed) + "&" + "backgroundColor=" + Encode(backgroundColor) + "&" + "radius=50" + "&" + "size=128"
  }

  function AvatarUrl(style: string, seed: string, backgroundColor: string): string {
    BASE_URL + "/" + style + "/svg?" + AvatarQuery(seed, backgroundColor)
  }

  lemma JoinFour(a: string, b: string, c: string, d: string)
    ensures Join([a, b, c, d], '&') == a + "&" + b + "&" + c + "&" + d
  {
    JoinCons(d, [], '&');
    assert [c, d] == [c] + [d];
    JoinCons(c, [d], '&');
    assert [b, c, d] == [b] + [c, d];
    JoinCons(b, [c, d], '&');
    assert [a, b, c, d] == [a] + [b, c, d];
    JoinCons(a, [b, c, d], '&');
  }

  /** The names and the fixed values contain only unreserved characters, so encoding keeps them. */
  lemma PlainLiterals()
    ensures Encode("seed") == "seed" && Encode("backgroundColor") == "backgroundColor"
    ensures Encode("radius") == "radius" && Encode("50") == "50"
    ensures Encode("size") == "size" && Encode("128") == "128"
  {
    EncodeUnreserved("seed");
    EncodeUnreserved("backgroundColor");
    EncodeUnreserved("radius");
    EncodeUnreserved("50");
    EncodeUnreserved("size");
    EncodeUnreserved("128");
  }

  lemma VariablePairs(seed: string, backgroundColor: string)
    ensures EncodedPair(("seed", seed)) == "seed=" + Encode(seed)
    ensures EncodedPair(("backgroundColor", backgroundColor)) == "backgroundColor=" + Encode(backgroundColor)
  {
    PlainLiterals();
    assert EncodedPair(("seed", seed)) == "seed" + "=" + Encode(seed);
    assert "seed" + "=" == "seed=";
    assert EncodedPair(("backgroundColor", backgroundColor)) == "backgroundColor" + "=" + Encode(backgroundColor);
    assert "backgroundColor" + "=" == "backgroundColor=";
  }

  lemma FixedPairs()
    ensures EncodedPair(("radius", "50")) == "radius=50"
    ensures EncodedPair(("size", "128")) == "size=128"
  {
    PlainLiterals();
  }

  /** The four parameters after encoding: the names and the fixed values need none. */
  lemma AvatarParamsEncoded(seed: string, backgroundColor: string)
    ensures EncodedPairs(AvatarParams(seed, backgroundColor)) ==
      ["seed=" + Encode(seed), "backgroundColor=" + Encode(backgroundColor), "radius=50", "size=128"]
  {
    VariablePairs(seed, backgroundColor);
    FixedPairs();
  }

  /** The serializer writes the four parameters in the order they are listed. */
  lemma AvatarParamsSerialize(seed: string, backgroundColor: string)
    ensures Serialize(AvatarParams(seed, backgroundColor)) == AvatarQuery(seed, backgroundColor)
  {
    var ps := AvatarParams(seed, backgroundColor);
    SerializeIsJoin(ps);
    AvatarParamsEncoded(seed, backgroundColor);
    var e0, e1 := "seed=" + Encode(seed), "backgroundColor=" + Encode(backgroundColor);
    JoinFour(e0, e1, "radius=50", "size=128");
  }

  /** `generateAvatar` always returns the documented shape; an omitted style is `adventurer`,
      an omitted colour or seed is the random draw. */
  lemma GenerateAvatarShape(config: AvatarConfig, draw: RandomDraw)
    requires draw.colorIndex < |BACKGROUND_COLORS|
    ensures GenerateAvatar(config, draw) == AvatarUrl(
      if config.style.Some? then StyleName(config.style.value) else "adventurer",
      if config.seed.Some? then config.seed.value else draw.seed,
      if config.backgroundColor.Some? then config.backgroundColor.value else BACKGROUND_COLORS[draw.colorIndex])
  {
    var backgroundColor := config.backgroundColor.GetOr(BACKGROUND_COLORS[draw.colorIndex]);
    var seed := config.seed.GetOr(draw.seed);
    AvatarParamsSerialize(seed, backgroundColor);
  }

  /** `generateAvatar()` with no configuration: the `adventurer` style, the drawn seed and the
      drawn colour. */
  lemma GenerateAvatarDefaults(draw: RandomDraw)
    requires draw.colorIndex < |BACKGROUND_COLORS|
    ensures GenerateAvatar(EMPTY_CONFIG, draw) ==
      AvatarUrl("adventurer", draw.seed, BACKGROUND_COLORS[draw.colorIndex])
  {
    GenerateAvatarShape(EMPTY_CONFIG, draw);
  }

  /** With style, colour and seed all supplied, the result uses exactly those and does not
      depend on the random draw. */
  lemma GenerateAvatarConfigured(style: AvatarStyle, backgroundColor: string, seed: string, d1: RandomDraw, d2: RandomDraw)
    requires d1.colorIndex < |BACKGROUND_COLORS| && d2.colorIndex < |BACKGROUND_COLORS|
    ensures GenerateAvatar(AvatarConfig(Some(style), Some(backgroundColor), Some(seed)), d1) ==
            GenerateAvatar(AvatarConfig(Some(style), Some(backgroundColor), Some(seed)), d2)
    ensures GenerateAvatar(AvatarConfig(Some(style), Some(backgroundColor), Some(seed)), d1) ==
            AvatarUrl(StyleName(style), seed, backgroundColor)
  {
    GenerateAvatarShape(AvatarConfig(Some(style), Some(backgroundColor), Some(seed)), d1);
  }

  /** The query of an avatar URL splits back into the four parameters, in order. */
  lemma AvatarQueryParses(seed: string, backgroundColor: string)
    ensures ParseQuery(AvatarQuery(seed, backgroundColor)) ==
      [("seed", Encode(seed)), ("backgroundColor", Encode(backgroundColor)), ("radius", "50"), ("size", "128")]
  {
    var ps := AvatarParams(seed, backgroundColor);
    AvatarParamsSerialize(seed, backgroundColor);
    SerializeParses(ps);
    PlainLiterals();
  }

  /** Seeds and colours made of ASCII alphanumerics and `-` (UUIDs, hex colours) go into the
      query unencoded. */
  lemma PlainAvatarQuery(seed: string, backgroundColor: string)
    requires forall i :: 0 <= i < |seed| ==> IsUnreserved(seed[i])
    requires forall i :: 0 <= i < |backgroundColor| ==> IsUnreserved(backgroundColor[i])
    ensures AvatarQuery(seed, backgroundColor) ==
      "seed=" + seed + "&" + "backgroundColor=" + backgroundColor + "&" + "radius=50" + "&" + "size=128"
  {
    EncodeUnreserved(seed);
    EncodeUnreserved(backgroundColor);
  }

  // ---------------------------------------------------------------- getUserAvatar

  /** `Math.abs(hashCode(userId)) % AVATAR_STYLES.length`, also for a hash of -2^31. */
  function StyleIndex(userId: string): (i: nat)
    ensures i < |AVATAR_STYLES|
  {
    Abs(StringHash(userId)) % |AVATAR_STYLES|
  }

  /** `Math.abs(hashCode(userId + 'color')) % BACKGROUND_COLORS.length`. */
  function ColorIndex(userId: string): (i: nat)
    ensures i < |BACKGROUND_COLORS|
  {
    Abs(StringHash(userId + "color")) % |BACKGROUND_COLORS|
  }

  /** The colour hash continues the style hash over the code units of `color`. */
  lemma ColorHashContinuesStyleHash(userId: string)
    ensures StringHash(userId + "color") == HashFold(StringHash(userId), CodeUnits("color"))
  {
    CodeUnitsAppend(userId, "color");
    HashFoldAppend(0, CodeUnits(userId), CodeUnits("color"));
  }

  lemma {:induction false} CodeUnitsAppend(a: string, b: string)
    ensures CodeUnits(a + b) == CodeUnits(a) + CodeUnits(b)
  {
    if a == [] {
      assert a + b == b;
    } else {
      assert (a + b)[0] == a[0];
      assert (a + b)[1..] == a[1..] + b;
      CodeUnitsAppend(a[1..], b);
    }
  }

  /** `getUserAvatar(userId)`. Every field is supplied, so no random default is drawn. */
  function UserAvatar(userId: string): (url: string)
    ensures url == AvatarUrl(StyleName(AVATAR_STYLES[StyleIndex(userId)]), userId,
                             BACKGROUND_COLORS[ColorIndex(userId)])
  {
    var config := AvatarConfig(
      Some(AVATAR_STYLES[StyleIndex(userId)]),
      Some(BACKGROUND_COLORS[ColorIndex(userId)]),
      Some(userId));
    GenerateAvatarShape(config, RandomDraw(0, []));
    GenerateAvatar(config, RandomDraw(0, []))
  }

  /** The background colours are hexadecimal digits, which the encoder leaves alone. */
  lemma ColorsPlain(k: nat)
    requires k < |BACKGROUND_COLORS|
    ensures forall i :: 0 <= i < |BACKGROUND_COLORS[k]| ==> IsUnreserved(BACKGROUND_COLORS[k][i])
  {
  }

  /** For a user id made of ASCII alphanumerics and `-`, such as a UUID, the URL is the plain
      concatenation of the style, the id and the colour. */
  lemma UserAvatarPlain(userId: string)
    requires forall i :: 0 <= i < |userId| ==> IsUnreserved(userId[i])
    ensures UserAvatar(userId) ==
      BASE_URL + "/" + StyleName(AVATAR_STYLES[StyleIndex(userId)]) + "/svg?" +
      ("seed=" + userId + "&" + "backgroundColor=" + BACKGROUND_COLORS[ColorIndex(userId)] + "&" +
       "radius=50" + "&" + "size=128")
  {
    var color := BACKGROUND_COLORS[ColorIndex(userId)];
    ColorsPlain(ColorIndex(userId));
    PlainAvatarQuery(userId, color);
  }
}
