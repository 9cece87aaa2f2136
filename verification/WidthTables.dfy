/** The range tables of src/simd/codepoint_width.cpp, without their padding. Long tables are cut into parts
    of sixteen ranges. */
module WidthTables {

  datatype KeyPair = Range(low: nat, high: nat)
  {
    predicate Has(cp: nat) { low <= cp <= high }
  }

  /** A key is never 0, which ends a table. */
  type Range = r: KeyPair | 0 < r.low <= r.high <= 0x10FFFF witness Range(1, 1)

  function Flatten(parts: seq<seq<Range>>): seq<Range> {
    if parts == [] then [] else parts[0] + Flatten(parts[1..])
  }

  // ----- East Asian wide -----

  const EAW32_1: seq<Range> := [
    Range(0x16fe0, 0x16fe3), Range(0x16ff0, 0x16ff1), Range(0x17000, 0x187f7), Range(0x18800, 0x18cd5),
    Range(0x18d00, 0x18d08), Range(0x1aff0, 0x1aff3), Range(0x1aff5, 0x1affb), Range(0x1affd, 0x1affe),
    Range(0x1b000, 0x1b122), Range(0x1b132, 0x1b132), Range(0x1b150, 0x1b152), Range(0x1b155, 0x1b155),
    Range(0x1b164, 0x1b167), Range(0x1b170, 0x1b2fb), Range(0x1f004, 0x1f004), Range(0x1f0cf, 0x1f0cf)]

  const EAW32_2: seq<Range> := [
    Range(0x1f18e, 0x1f18e), Range(0x1f191, 0x1f19a), Range(0x1f200, 0x1f202), Range(0x1f210, 0x1f23b),
    Range(0x1f240, 0x1f248), Range(0x1f250, 0x1f251), Range(0x1f260, 0x1f265), Range(0x1f300, 0x1f320),
    Range(0x1f32d, 0x1f335), Range(0x1f337, 0x1f37c), Range(0x1f37e, 0x1f393), Range(0x1f3a0, 0x1f3ca),
    Range(0x1f3cf, 0x1f3d3), Range(0x1f3e0, 0x1f3f0), Range(0x1f3f4, 0x1f3f4), Range(0x1f3f8, 0x1f3fa)]

  const EAW32_3: seq<Range> := [
    Range(0x1f3fb, 0x1f3ff), Range(0x1f400, 0x1f43e), Range(0x1f440, 0x1f440), Range(0x1f442, 0x1f4fc),
    Range(0x1f4ff, 0x1f53d), Range(0x1f54b, 0x1f54e), Range(0x1f550, 0x1f567), Range(0x1f57a, 0x1f57a),
    Range(0x1f595, 0x1f596), Range(0x1f5a4, 0x1f5a4), Range(0x1f5fb, 0x1f64f), Range(0x1f680, 0x1f6c5),
    Range(0x1f6cc, 0x1f6cc), Range(0x1f6d0, 0x1f6d2), Range(0x1f6d5, 0x1f6d7), Range(0x1f6dc, 0x1f6df)]

  const EAW32_4: seq<Range> := [
    Range(0x1f6eb, 0x1f6ec), Range(0x1f6f4, 0x1f6fc), Range(0x1f7e0, 0x1f7eb), Range(0x1f7f0, 0x1f7f0),
    Range(0x1f90c, 0x1f93a), Range(0x1f93c, 0x1f945), Range(0x1f947, 0x1f9ff), Range(0x1fa70, 0x1fa7c),
    Range(0x1fa80, 0x1fa88), Range(0x1fa90, 0x1fabd), Range(0x1fabf, 0x1fac5), Range(0x1face, 0x1fadb),
    Range(0x1fae0, 0x1fae8), Range(0x1faf0, 0x1faf8), Range(0x20000, 0x2a6df), Range(0x2a700, 0x2b739)]

  const EAW32_5: seq<Range> := [
    Range(0x2b740, 0x2b81d), Range(0x2b820, 0x2cea1), Range(0x2ceb0, 0x2ebe0), Range(0x2f800, 0x2fa1d),
    Range(0x30000, 0x3134a), Range(0x31350, 0x323af)]

  const EAW32_PARTS: seq<seq<Range>> := [
    EAW32_1, EAW32_2, EAW32_3, EAW32_4, EAW32_5]

  const EAW32: seq<Range> := Flatten(EAW32_PARTS)

  const EAW16_1: seq<Range> := [
    Range(0x3000, 0x3000), Range(0xff01, 0xff60), Range(0xffe0, 0xffe6), Range(0x1100, 0x115f),
    Range(0x231a, 0x231b), Range(0x2329, 0x2329), Range(0x232a, 0x232a), Range(0x23e9, 0x23ec),
    Range(0x23f0, 0x23f0), Range(0x23f3, 0x23f3), Range(0x25fd, 0x25fe), Range(0x2614, 0x2615),
    Range(0x2648, 0x2653), Range(0x267f, 0x267f), Range(0x2693, 0x2693), Range(0x26a1, 0x26a1)]

  const EAW16_2: seq<Range> := [
    Range(0x26aa, 0x26ab), Range(0x26bd, 0x26be), Range(0x26c4, 0x26c5), Range(0x26ce, 0x26ce),
    Range(0x26d4, 0x26d4), Range(0x26ea, 0x26ea), Range(0x26f2, 0x26f3), Range(0x26f5, 0x26f5),
    Range(0x26fa, 0x26fa), Range(0x26fd, 0x26fd), Range(0x2705, 0x2705), Range(0x270a, 0x270b),
    Range(0x2728, 0x2728), Range(0x274c, 0x274c), Range(0x274e, 0x274e), Range(0x2753, 0x2755)]

  const EAW16_3: seq<Range> := [
    Range(0x2757, 0x2757), Range(0x2795, 0x2797), Range(0x27b0, 0x27b0), Range(0x27bf, 0x27bf),
    Range(0x2b1b, 0x2b1c), Range(0x2b50, 0x2b50), Range(0x2b55, 0x2b55), Range(0x2e80, 0x2e99),
    Range(0x2e9b, 0x2ef3), Range(0x2f00, 0x2fd5), Range(0x2ff0, 0x2ffb), Range(0x3001, 0x3029),
    Range(0x302e, 0x303e), Range(0x3041, 0x3096), Range(0x309b, 0x309c), Range(0x309d, 0x309e)]

  const EAW16_4: seq<Range> := [
    Range(0x309f, 0x309f), Range(0x30a0, 0x30a0), Range(0x30a1, 0x30fa), Range(0x30fb, 0x30fb),
    Range(0x30fc, 0x30fe), Range(0x30ff, 0x30ff), Range(0x3105, 0x312f), Range(0x3131, 0x318e),
    Range(0x3190, 0x3191), Range(0x3192, 0x3195), Range(0x3196, 0x319f), Range(0x31a0, 0x31bf),
    Range(0x31c0, 0x31e3), Range(0x31f0, 0x31ff), Range(0x3200, 0x321e), Range(0x3220, 0x3229)]

  const EAW16_5: seq<Range> := [
    Range(0x322a, 0x3247), Range(0x3250, 0x3250), Range(0x3251, 0x325f), Range(0x3260, 0x327f),
    Range(0x3280, 0x3289), Range(0x328a, 0x32b0), Range(0x32b1, 0x32bf), Range(0x32c0, 0x33ff),
    Range(0x3400, 0x4bdf), Range(0x4e00, 0xa014), Range(0xa015, 0xa015), Range(0xa016, 0xa48c),
    Range(0xa490, 0xa4c6), Range(0xa960, 0xa97c), Range(0xac00, 0xd7a3), Range(0xf900, 0xfa6d)]

  const EAW16_6: seq<Range> := [
    Range(0xfa70, 0xfad9), Range(0xfe10, 0xfe19), Range(0xfe30, 0xfe52), Range(0xfe54, 0xfe66),
    Range(0xfe68, 0xfe6b)]

  const EAW16_PARTS: seq<seq<Range>> := [
    EAW16_1, EAW16_2, EAW16_3, EAW16_4, EAW16_5, EAW16_6]

  const EAW16: seq<Range> := Flatten(EAW16_PARTS)

  // ----- Definitely of width 0 -----

  const ZERO32: seq<Range> := [
    Range(0x110bd, 0x110bd), Range(0x110cd, 0x110cd), Range(0x13430, 0x1343f), Range(0x1bca0, 0x1bca3),
    Range(0x1d173, 0x1d17a), Range(0xe0001, 0xe0001), Range(0xe0020, 0xe007f)]

  const ZERO16: seq<Range> := [
    Range(0xad, 0xad), Range(0x70f, 0x70f), Range(0x890, 0x891), Range(0x180e, 0x180e),
    Range(0x200b, 0x200f), Range(0x202a, 0x202e), Range(0x2060, 0x2064), Range(0x2066, 0x206f),
    Range(0xfeff, 0xfeff), Range(0xfff9, 0xfffb), Range(0x488, 0x489), Range(0x1abe, 0x1abe),
    Range(0x20dd, 0x20e0), Range(0x20e2, 0x20e4), Range(0xa670, 0xa672)]

  // ----- Non-spacing marks -----

  const NSM32_1: seq<Range> := [
    Range(0x101fd, 0x101fd), Range(0x102e0, 0x102e0), Range(0x10376, 0x1037a), Range(0x10a01, 0x10a03),
    Range(0x10a05, 0x10a06), Range(0x10a0c, 0x10a0f), Range(0x10a38, 0x10a3a), Range(0x10a3f, 0x10a3f),
    Range(0x10ae5, 0x10ae6), Range(0x10d24, 0x10d27), Range(0x10eab, 0x10eac), Range(0x10efd, 0x10eff),
    Range(0x10f46, 0x10f50), Range(0x10f82, 0x10f85), Range(0x11001, 0x11001), Range(0x11038, 0x11046)]

  const NSM32_2: seq<Range> := [
    Range(0x11070, 0x11070), Range(0x11073, 0x11074), Range(0x1107f, 0x11081), Range(0x110b3, 0x110b6),
    Range(0x110b9, 0x110ba), Range(0x110c2, 0x110c2), Range(0x11100, 0x11102), Range(0x11127, 0x1112b),
    Range(0x1112d, 0x11134), Range(0x11173, 0x11173), Range(0x11180, 0x11181), Range(0x111b6, 0x111be),
    Range(0x111c9, 0x111cc), Range(0x111cf, 0x111cf), Range(0x1122f, 0x11231), Range(0x11234, 0x11234)]

  const NSM32_3: seq<Range> := [
    Range(0x11236, 0x11237), Range(0x1123e, 0x1123e), Range(0x11241, 0x11241), Range(0x112df, 0x112df),
    Range(0x112e3, 0x112ea), Range(0x11300, 0x11301), Range(0x1133b, 0x1133c), Range(0x11340, 0x11340),
    Range(0x11366, 0x1136c), Range(0x11370, 0x11374), Range(0x11438, 0x1143f), Range(0x11442, 0x11444),
    Range(0x11446, 0x11446), Range(0x1145e, 0x1145e), Range(0x114b3, 0x114b8), Range(0x114ba, 0x114ba)]

  const NSM32_4: seq<Range> := [
    Range(0x114bf, 0x114c0), Range(0x114c2, 0x114c3), Range(0x115b2, 0x115b5), Range(0x115bc, 0x115bd),
    Range(0x115bf, 0x115c0), Range(0x115dc, 0x115dd), Range(0x11633, 0x1163a), Range(0x1163d, 0x1163d),
    Range(0x1163f, 0x11640), Range(0x116ab, 0x116ab), Range(0x116ad, 0x116ad), Range(0x116b0, 0x116b5),
    Range(0x116b7, 0x116b7), Range(0x1171d, 0x1171f), Range(0x11722, 0x11725), Range(0x11727, 0x1172b)]

  const NSM32_5: seq<Range> := [
    Range(0x1182f, 0x11837), Range(0x11839, 0x1183a), Range(0x1193b, 0x1193c), Range(0x1193e, 0x1193e),
    Range(0x11943, 0x11943), Range(0x119d4, 0x119d7), Range(0x119da, 0x119db), Range(0x119e0, 0x119e0),
    Range(0x11a01, 0x11a0a), Range(0x11a33, 0x11a38), Range(0x11a3b, 0x11a3e), Range(0x11a47, 0x11a47),
    Range(0x11a51, 0x11a56), Range(0x11a59, 0x11a5b), Range(0x11a8a, 0x11a96), Range(0x11a98, 0x11a99)]

  const NSM32_6: seq<Range> := [
    Range(0x11c30, 0x11c36), Range(0x11c38, 0x11c3d), Range(0x11c3f, 0x11c3f), Range(0x11c92, 0x11ca7),
    Range(0x11caa, 0x11cb0), Range(0x11cb2, 0x11cb3), Range(0x11cb5, 0x11cb6), Range(0x11d31, 0x11d36),
    Range(0x11d3a, 0x11d3a), Range(0x11d3c, 0x11d3d), Range(0x11d3f, 0x11d45), Range(0x11d47, 0x11d47),
    Range(0x11d90, 0x11d91), Range(0x11d95, 0x11d95), Range(0x11d97, 0x11d97), Range(0x11ef3, 0x11ef4)]

  const NSM32_7: seq<Range> := [
    Range(0x11f00, 0x11f01), Range(0x11f36, 0x11f3a), Range(0x11f40, 0x11f40), Range(0x11f42, 0x11f42),
    Range(0x13440, 0x13440), Range(0x13447, 0x13455), Range(0x16af0, 0x16af4), Range(0x16b30, 0x16b36),
    Range(0x16f4f, 0x16f4f), Range(0x16f8f, 0x16f92), Range(0x16fe4, 0x16fe4), Range(0x1bc9d, 0x1bc9e),
    Range(0x1cf00, 0x1cf2d), Range(0x1cf30, 0x1cf46), Range(0x1d167, 0x1d169), Range(0x1d17b, 0x1d182)]

  const NSM32_8: seq<Range> := [
    Range(0x1d185, 0x1d18b), Range(0x1d1aa, 0x1d1ad), Range(0x1d242, 0x1d244), Range(0x1da00, 0x1da36),
    Range(0x1da3b, 0x1da6c), Range(0x1da75, 0x1da75), Range(0x1da84, 0x1da84), Range(0x1da9b, 0x1da9f),
    Range(0x1daa1, 0x1daaf), Range(0x1e000, 0x1e006), Range(0x1e008, 0x1e018), Range(0x1e01b, 0x1e021),
    Range(0x1e023, 0x1e024), Range(0x1e026, 0x1e02a), Range(0x1e08f, 0x1e08f), Range(0x1e130, 0x1e136)]

  const NSM32_9: seq<Range> := [
    Range(0x1e2ae, 0x1e2ae), Range(0x1e2ec, 0x1e2ef), Range(0x1e4ec, 0x1e4ef), Range(0x1e8d0, 0x1e8d6),
    Range(0x1e944, 0x1e94a), Range(0xe0100, 0xe01ef)]

  const NSM32_PARTS: seq<seq<Range>> := [
    NSM32_1, NSM32_2, NSM32_3, NSM32_4, NSM32_5, NSM32_6, NSM32_7, NSM32_8, NSM32_9]

  const NSM32: seq<Range> := Flatten(NSM32_PARTS)

  const NSM16_1: seq<Range> := [
    Range(0x300, 0x36f), Range(0x483, 0x487), Range(0x591, 0x5bd), Range(0x5bf, 0x5bf),
    Range(0x5c1, 0x5c2), Range(0x5c4, 0x5c5), Range(0x5c7, 0x5c7), Range(0x610, 0x61a),
    Range(0x64b, 0x65f), Range(0x670, 0x670), Range(0x6d6, 0x6dc), Range(0x6df, 0x6e4),
    Range(0x6e7, 0x6e8), Range(0x6ea, 0x6ed), Range(0x711, 0x711), Range(0x730, 0x74a)]

  const NSM16_2: seq<Range> := [
    Range(0x7a6, 0x7b0), Range(0x7eb, 0x7f3), Range(0x7fd, 0x7fd), Range(0x816, 0x819),
    Range(0x81b, 0x823), Range(0x825, 0x827), Range(0x829, 0x82d), Range(0x859, 0x85b),
    Range(0x898, 0x89f), Range(0x8ca, 0x8e1), Range(0x8e3, 0x902), Range(0x93a, 0x93a),
    Range(0x93c, 0x93c), Range(0x941, 0x948), Range(0x94d, 0x94d), Range(0x951, 0x957)]

  const NSM16_3: seq<Range> := [
    Range(0x962, 0x963), Range(0x981, 0x981), Range(0x9bc, 0x9bc), Range(0x9c1, 0x9c4),
    Range(0x9cd, 0x9cd), Range(0x9e2, 0x9e3), Range(0x9fe, 0x9fe), Range(0xa01, 0xa02),
    Range(0xa3c, 0xa3c), Range(0xa41, 0xa42), Range(0xa47, 0xa48), Range(0xa4b, 0xa4d),
    Range(0xa51, 0xa51), Range(0xa70, 0xa71), Range(0xa75, 0xa75), Range(0xa81, 0xa82)]

  const NSM16_4: seq<Range> := [
    Range(0xabc, 0xabc), Range(0xac1, 0xac5), Range(0xac7, 0xac8), Range(0xacd, 0xacd),
    Range(0xae2, 0xae3), Range(0xafa, 0xaff), Range(0xb01, 0xb01), Range(0xb3c, 0xb3c),
    Range(0xb3f, 0xb3f), Range(0xb41, 0xb44), Range(0xb4d, 0xb4d), Range(0xb55, 0xb56),
    Range(0xb62, 0xb63), Range(0xb82, 0xb82), Range(0xbc0, 0xbc0), Range(0xbcd, 0xbcd)]

  const NSM16_5: seq<Range> := [
    Range(0xc00, 0xc00), Range(0xc04, 0xc04), Range(0xc3c, 0xc3c), Range(0xc3e, 0xc40),
    Range(0xc46, 0xc48), Range(0xc4a, 0xc4d), Range(0xc55, 0xc56), Range(0xc62, 0xc63),
    Range(0xc81, 0xc81), Range(0xcbc, 0xcbc), Range(0xcbf, 0xcbf), Range(0xcc6, 0xcc6),
    Range(0xccc, 0xccd), Range(0xce2, 0xce3), Range(0xd00, 0xd01), Range(0xd3b, 0xd3c)]

  const NSM16_6: seq<Range> := [
    Range(0xd41, 0xd44), Range(0xd4d, 0xd4d), Range(0xd62, 0xd63), Range(0xd81, 0xd81),
    Range(0xdca, 0xdca), Range(0xdd2, 0xdd4), Range(0xdd6, 0xdd6), Range(0xe31, 0xe31),
    Range(0xe34, 0xe3a), Range(0xe47, 0xe4e), Range(0xeb1, 0xeb1), Range(0xeb4, 0xebc),
    Range(0xec8, 0xece), Range(0xf18, 0xf19), Range(0xf35, 0xf35), Range(0xf37, 0xf37)]

  const NSM16_7: seq<Range> := [
    Range(0xf39, 0xf39), Range(0xf71, 0xf7e), Range(0xf80, 0xf84), Range(0xf86, 0xf87),
    Range(0xf8d, 0xf97), Range(0xf99, 0xfbc), Range(0xfc6, 0xfc6), Range(0x102d, 0x1030),
    Range(0x1032, 0x1037), Range(0x1039, 0x103a), Range(0x103d, 0x103e), Range(0x1058, 0x1059),
    Range(0x105e, 0x1060), Range(0x1071, 0x1074), Range(0x1082, 0x1082), Range(0x1085, 0x1086)]

  const NSM16_8: seq<Range> := [
    Range(0x108d, 0x108d), Range(0x109d, 0x109d), Range(0x135d, 0x135f), Range(0x1712, 0x1714),
    Range(0x1732, 0x1733), Range(0x1752, 0x1753), Range(0x1772, 0x1773), Range(0x17b4, 0x17b5),
    Range(0x17b7, 0x17bd), Range(0x17c6, 0x17c6), Range(0x17c9, 0x17d3), Range(0x17dd, 0x17dd),
    Range(0x180b, 0x180d), Range(0x180f, 0x180f), Range(0x1885, 0x1886), Range(0x18a9, 0x18a9)]

  const NSM16_9: seq<Range> := [
    Range(0x1920, 0x1922), Range(0x1927, 0x1928), Range(0x1932, 0x1932), Range(0x1939, 0x193b),
    Range(0x1a17, 0x1a18), Range(0x1a1b, 0x1a1b), Range(0x1a56, 0x1a56), Range(0x1a58, 0x1a5e),
    Range(0x1a60, 0x1a60), Range(0x1a62, 0x1a62), Range(0x1a65, 0x1a6c), Range(0x1a73, 0x1a7c),
    Range(0x1a7f, 0x1a7f), Range(0x1ab0, 0x1abd), Range(0x1abf, 0x1ace), Range(0x1b00, 0x1b03)]

  const NSM16_10: seq<Range> := [
    Range(0x1b34, 0x1b34), Range(0x1b36, 0x1b3a), Range(0x1b3c, 0x1b3c), Range(0x1b42, 0x1b42),
    Range(0x1b6b, 0x1b73), Range(0x1b80, 0x1b81), Range(0x1ba2, 0x1ba5), Range(0x1ba8, 0x1ba9),
    Range(0x1bab, 0x1bad), Range(0x1be6, 0x1be6), Range(0x1be8, 0x1be9), Range(0x1bed, 0x1bed),
    Range(0x1bef, 0x1bf1), Range(0x1c2c, 0x1c33), Range(0x1c36, 0x1c37), Range(0x1cd0, 0x1cd2)]

  const NSM16_11: seq<Range> := [
    Range(0x1cd4, 0x1ce0), Range(0x1ce2, 0x1ce8), Range(0x1ced, 0x1ced), Range(0x1cf4, 0x1cf4),
    Range(0x1cf8, 0x1cf9), Range(0x1dc0, 0x1dff), Range(0x20d0, 0x20dc), Range(0x20e1, 0x20e1),
    Range(0x20e5, 0x20f0), Range(0x2cef, 0x2cf1), Range(0x2d7f, 0x2d7f), Range(0x2de0, 0x2dff),
    Range(0x302a, 0x302d), Range(0x3099, 0x309a), Range(0xa66f, 0xa66f), Range(0xa674, 0xa67d)]

  const NSM16_12: seq<Range> := [
    Range(0xa69e, 0xa69f), Range(0xa6f0, 0xa6f1), Range(0xa802, 0xa802), Range(0xa806, 0xa806),
    Range(0xa80b, 0xa80b), Range(0xa825, 0xa826), Range(0xa82c, 0xa82c), Range(0xa8c4, 0xa8c5),
    Range(0xa8e0, 0xa8f1), Range(0xa8ff, 0xa8ff), Range(0xa926, 0xa92d), Range(0xa947, 0xa951),
    Range(0xa980, 0xa982), Range(0xa9b3, 0xa9b3), Range(0xa9b6, 0xa9b9), Range(0xa9bc, 0xa9bd)]

  const NSM16_13: seq<Range> := [
    Range(0xa9e5, 0xa9e5), Range(0xaa29, 0xaa2e), Range(0xaa31, 0xaa32), Range(0xaa35, 0xaa36),
    Range(0xaa43, 0xaa43), Range(0xaa4c, 0xaa4c), Range(0xaa7c, 0xaa7c), Range(0xaab0, 0xaab0),
    Range(0xaab2, 0xaab4), Range(0xaab7, 0xaab8), Range(0xaabe, 0xaabf), Range(0xaac1, 0xaac1),
    Range(0xaaec, 0xaaed), Range(0xaaf6, 0xaaf6), Range(0xabe5, 0xabe5), Range(0xabe8, 0xabe8)]

  const NSM16_14: seq<Range> := [
    Range(0xabed, 0xabed), Range(0xfb1e, 0xfb1e), Range(0xfe00, 0xfe0f), Range(0xfe20, 0xfe2f)]

  const NSM16_PARTS: seq<seq<Range>> := [
    NSM16_1, NSM16_2, NSM16_3, NSM16_4, NSM16_5, NSM16_6, NSM16_7, NSM16_8, NSM16_9,
    NSM16_10, NSM16_11, NSM16_12, NSM16_13, NSM16_14]

  const NSM16: seq<Range> := Flatten(NSM16_PARTS)

  /** The first five are of width 2, the others of width 0. */
  const FAST16: seq<Range> := [
    Range(0x2e3a, 0x2e3a), Range(0x3400, 0x4dbf), Range(0x4e00, 0x9fff), Range(0xf900, 0xfaff),
    Range(0x2e3b, 0x2e3b), Range(0x1160, 0x11ff), Range(0x2060, 0x206f), Range(0xfff0, 0xfff8)]

  /** Of width 2. */
  const WIDE32: seq<Range> := [
    Range(0x1f1e6, 0x1f1ff), Range(0x20000, 0x2fffd), Range(0x30000, 0x3fffd)]

  /** Of width 0. */
  const ZERO_PLANE32: seq<Range> := [
    Range(0xe0000, 0xe0fff)]

  lemma {:induction false} FlattenSize(parts: seq<seq<Range>>)
    requires parts != [] && forall i :: 0 <= i < |parts| - 1 ==> |parts[i]| == 16
    ensures |Flatten(parts)| == 16 * (|parts| - 1) + |parts[|parts| - 1]|
  {
    if |parts| > 1 {
      FlattenSize(parts[1..]);
    } else {
      assert Flatten(parts[1..]) == [];
    }
  }

  lemma Sizes()
    ensures |EAW32| == 70 && |EAW16| == 85 && |ZERO32| == 7 && |ZERO16| == 15 && |NSM32| == 134 && |NSM16| == 212
    ensures |FAST16| == 8 && |WIDE32| == 3 && |ZERO_PLANE32| == 1
  {
    FlattenSize(EAW32_PARTS);
    FlattenSize(EAW16_PARTS);
    FlattenSize(NSM32_PARTS);
    FlattenSize(NSM16_PARTS);
  }
}
