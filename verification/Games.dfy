/** The game-dependent values the model needs. */
module Games {
  import opened Wire
  import opened Records

  datatype Game =
    | SkyrimSE
    | SkyrimLE
    | SkyrimVR
    | Fallout4
    | Fallout4VR
    | Fallout76
    | Starfield
    | Oblivion
    | Fallout3
    | FalloutNV
    | Morrowind

  function HeaderSignature(game: Game): Signature {
    if game == Morrowind then TES3 else TES4
  }

  predicate SupportsLight(game: Game) {
    game in {SkyrimSE, SkyrimVR, Fallout4, Fallout4VR, Fallout76, Starfield}
  }

  predicate SupportsMedium(game: Game) {
    game == Starfield
  }

  predicate SupportsUpdate(game: Game) {
    game == Starfield || game == SkyrimVR
  }

  /** The header flag bits that decide a plugin's kind. */
  const ESM_FLAG: U32 := 0x0000_0001
  const LOCALIZED_FLAG: U32 := 0x0000_0080
  const MEDIUM_FLAG: U32 := 0x0000_0400

  function LightFlag(game: Game): U32 {
    if game == Starfield then 0x0000_0100 else 0x0000_0200
  }

  function UpdateFlag(game: Game): U32 {
    if game == Starfield then 0x0000_0200 else 0x0010_0000
  }

  datatype PluginKind = MasterPlugin | OrdinaryPlugin | LightPlugin | MediumPlugin | UpdatePlugin

  function KindFromFlags(game: Game, flags: U32): PluginKind {
    if SupportsMedium(game) && HasBit(flags, MEDIUM_FLAG) then MediumPlugin
    else if SupportsUpdate(game) && HasBit(flags, UpdateFlag(game)) then UpdatePlugin
    else if SupportsLight(game) && HasBit(flags, LightFlag(game)) then LightPlugin
    else if HasBit(flags, ESM_FLAG) then MasterPlugin
    else OrdinaryPlugin
  }

  function LightMinObjectId(game: Game): U32 {
    if game == SkyrimSE then 1 else 0x800
  }

  const LIGHT_MAX_OBJECT_ID: U32 := 0xFFF

  /**
   What lies outside the model: zlib inflation, which may fail, the validity of
   a byte string as UTF-8, and lower-casing. Text is kept as its UTF-8 bytes.
   */
  datatype Env = Env(inflate: (Bytes, U32) -> Result<Bytes>, validUtf8: Bytes -> bool, lower: Bytes -> Bytes)
}
