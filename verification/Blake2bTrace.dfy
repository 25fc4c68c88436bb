/**
 * The compression function of BLAKE2b pinned down from outside: the initialisation vector as
 * square roots, the rotations as arithmetic, and the trace of the message "abc" in appendix A of
 * RFC 7693, round by round.
 */
module Blake2bTrace {
  import opened Words
  import opened Bytes
  import opened Blake2bCompress
  import opened Blake2b
  import opened Blake2bSimd

  /** w is the first 64 bits of the fraction of the square root of p, whose integer part is k. */
  ghost predicate RootFraction(w: bv64, k: nat, p: nat) {
    var r := w as nat + k * 0x1_0000_0000_0000_0000;
    r * r <= p * 0x1_0000_0000_0000_0000_0000_0000_0000_0000 < (r + 1) * (r + 1)
  }

  /** The initialisation vector: the square roots of the first eight primes. */
  lemma IvIsRoots()
    ensures RootFraction(IV[0], 1, 2) && RootFraction(IV[1], 1, 3) && RootFraction(IV[2], 2, 5)
    ensures RootFraction(IV[3], 2, 7)
    ensures RootFraction(IV[4], 3, 11) && RootFraction(IV[5], 3, 13) && RootFraction(IV[6], 4, 17)
    ensures RootFraction(IV[7], 4, 19)
  {
    hide RootFraction;
    FirstRoots();
    LastRoots();
  }

  lemma FirstRoots()
    ensures RootFraction(IV[0], 1, 2) && RootFraction(IV[1], 1, 3) && RootFraction(IV[2], 2, 5)
    ensures RootFraction(IV[3], 2, 7)
  {
  }

  lemma LastRoots()
    ensures RootFraction(IV[4], 3, 11) && RootFraction(IV[5], 3, 13) && RootFraction(IV[6], 4, 17)
    ensures RootFraction(IV[7], 4, 19)
  {
  }

  // The rotations to the right: the bits shifted out come back at the top.

  lemma Rotation32(x: bv64)
    ensures Rotr32(x) == x / 0x1_0000_0000 + x % 0x1_0000_0000 * 0x1_0000_0000
  {
  }

  lemma Rotation24(x: bv64)
    ensures Rotr24(x) == x / 0x100_0000 + x % 0x100_0000 * 0x100_0000_0000
  {
  }

  lemma Rotation16(x: bv64)
    ensures Rotr16(x) == x / 0x1_0000 + x % 0x1_0000 * 0x1_0000_0000_0000
  {
  }

  lemma Rotation63(x: bv64)
    ensures Rotr63(x) == x / 0x8000_0000_0000_0000 + x % 0x8000_0000_0000_0000 * 2
  {
  }

  /** The state whose columns, or diagonals, are the given quads. */
  function OfColumns(p0: Quad, p1: Quad, p2: Quad, p3: Quad): Vector {
    [p0.a, p1.a, p2.a, p3.a, p0.b, p1.b, p2.b, p3.b, p0.c, p1.c, p2.c, p3.c, p0.d, p1.d, p2.d, p3.d]
  }

  function OfDiagonals(p0: Quad, p1: Quad, p2: Quad, p3: Quad): Vector {
    [p0.a, p1.a, p2.a, p3.a, p3.b, p0.b, p1.b, p2.b, p2.c, p3.c, p0.c, p1.c, p1.d, p2.d, p3.d, p0.d]
  }

  lemma FromColumns(w: Vector)
    ensures w == OfColumns(Col(w, 0), Col(w, 1), Col(w, 2), Col(w, 3))
  {
  }

  lemma FromDiagonals(w: Vector)
    ensures w == OfDiagonals(Diag(w, 0), Diag(w, 1), Diag(w, 2), Diag(w, 3))
  {
  }

  lemma ColumnsAre(v: Vector, m: Vector, s: Choice)
    ensures ColumnStep(v, m, s)
         == OfColumns(Mix(Col(v, 0), m[s[0]], m[s[1]]), Mix(Col(v, 1), m[s[2]], m[s[3]]),
                      Mix(Col(v, 2), m[s[4]], m[s[5]]), Mix(Col(v, 3), m[s[6]], m[s[7]]))
  {
    hide G, Mix, Col, OfColumns;
    var v1 := G(v, 0, 4, 8, 12, m[s[0]], m[s[1]]);
    var v2 := G(v1, 1, 5, 9, 13, m[s[2]], m[s[3]]);
    var v3 := G(v2, 2, 6, 10, 14, m[s[4]], m[s[5]]);
    MixColumn(v, 0, m[s[0]], m[s[1]]);
    MixColumn(v1, 1, m[s[2]], m[s[3]]);
    MixColumn(v2, 2, m[s[4]], m[s[5]]);
    MixColumn(v3, 3, m[s[6]], m[s[7]]);
    FromColumns(ColumnStep(v, m, s));
  }

  lemma DiagonalsAre(v: Vector, m: Vector, s: Choice)
    ensures DiagonalStep(v, m, s)
         == OfDiagonals(Mix(Diag(v, 0), m[s[8]], m[s[9]]), Mix(Diag(v, 1), m[s[10]], m[s[11]]),
                        Mix(Diag(v, 2), m[s[12]], m[s[13]]), Mix(Diag(v, 3), m[s[14]], m[s[15]]))
  {
    hide G, Mix, Diag, OfDiagonals;
    var v1 := G(v, 0, 5, 10, 15, m[s[8]], m[s[9]]);
    var v2 := G(v1, 1, 6, 11, 12, m[s[10]], m[s[11]]);
    var v3 := G(v2, 2, 7, 8, 13, m[s[12]], m[s[13]]);
    MixDiagonal(v, 0, m[s[8]], m[s[9]]);
    MixDiagonal(v1, 1, m[s[10]], m[s[11]]);
    MixDiagonal(v2, 2, m[s[12]], m[s[13]]);
    MixDiagonal(v3, 3, m[s[14]], m[s[15]]);
    FromDiagonals(DiagonalStep(v, m, s));
  }

  /** A state as its four columns, or as its four diagonals. */
  datatype Four = Four(q0: Quad, q1: Quad, q2: Quad, q3: Quad)

  function AsVector(f: Four): Vector { OfColumns(f.q0, f.q1, f.q2, f.q3) }

  /** From columns to diagonals and back. */
  function Turn(f: Four): Four {
    Four(Quad(f.q0.a, f.q1.b, f.q2.c, f.q3.d), Quad(f.q1.a, f.q2.b, f.q3.c, f.q0.d),
         Quad(f.q2.a, f.q3.b, f.q0.c, f.q1.d), Quad(f.q3.a, f.q0.b, f.q1.c, f.q2.d))
  }

  function TurnBack(f: Four): Four {
    Four(Quad(f.q0.a, f.q3.b, f.q2.c, f.q1.d), Quad(f.q1.a, f.q0.b, f.q3.c, f.q2.d),
         Quad(f.q2.a, f.q1.b, f.q0.c, f.q3.d), Quad(f.q3.a, f.q2.b, f.q1.c, f.q0.d))
  }

  /** The message words of half a round. */
  datatype Eight = Eight(x0: bv64, y0: bv64, x1: bv64, y1: bv64, x2: bv64, y2: bv64, x3: bv64, y3: bv64)

  function FirstWords(m: Vector, s: Choice): Eight {
    Eight(m[s[0]], m[s[1]], m[s[2]], m[s[3]], m[s[4]], m[s[5]], m[s[6]], m[s[7]])
  }

  function LastWords(m: Vector, s: Choice): Eight {
    Eight(m[s[8]], m[s[9]], m[s[10]], m[s[11]], m[s[12]], m[s[13]], m[s[14]], m[s[15]])
  }

  function Mixes(f: Four, m: Eight): Four {
    Four(Mix(f.q0, m.x0, m.y0), Mix(f.q1, m.x1, m.y1), Mix(f.q2, m.x2, m.y2), Mix(f.q3, m.x3, m.y3))
  }

  /** A round on columns and diagonals. */
  lemma RoundIs(f: Four, m: Vector, r: nat)
    requires r < 12
    ensures Round(AsVector(f), m, r)
         == AsVector(TurnBack(Mixes(Turn(Mixes(f, FirstWords(m, Sigma(r)))), LastWords(m, Sigma(r)))))
  {
    hide ColumnStep, DiagonalStep, Sigma, Mix;
    var s := Sigma(r);
    ColumnsAre(AsVector(f), m, s);
    DiagonalsAre(AsVector(Mixes(f, FirstWords(m, s))), m, s);
  }

  /** The message block of "abc": one word that is not zero. */
  const ABC: Vector := [0x636261, 0, 0, 0, 0, 0, 0, 0, 0, 0, 0, 0, 0, 0, 0, 0]

  // The columns before each round, and the diagonals between its halves.

  const V0 := Four(
    Quad(0x6a09e667f2bdc948, 0x510e527fade682d1, 0x6a09e667f3bcc908, 0x510e527fade682d2),
    Quad(0xbb67ae8584caa73b, 0x9b05688c2b3e6c1f, 0xbb67ae8584caa73b, 0x9b05688c2b3e6c1f),
    Quad(0x3c6ef372fe94f82b, 0x1f83d9abfb41bd6b, 0x3c6ef372fe94f82b, 0xe07c265404be4294),
    Quad(0xa54ff53a5f1d36f1, 0x5be0cd19137e2179, 0xa54ff53a5f1d36f1, 0x5be0cd19137e2179))

  const D0 := Four(
    Quad(0xf0c9aa0f86491dea, 0xed49c30cd311d50e, 0xb2752dadd66bd8f9, 0xa25ef57d7da312ee),
    Quad(0x63b7dedf4a4e5ad3, 0xa056671704b00d71, 0xa99463cb37905929, 0x7772fc2886a76c5f),
    Quad(0xbe50eb454e0a93d7, 0x75e6432fc4661b06, 0xee5e0f39647a9fff, 0x254ef880a19a8726),
    Quad(0x949804b0483ead14, 0xb7defc3d0277e11f, 0x7bee264bf3cdadfe, 0x789d43381c47f584))

  const V1 := Four(
    Quad(0x86b7c1568029bb79, 0x44ee6039bd86a9f7, 0xbec3ae837eac4887, 0xe02d0975b8d37a83),
    Quad(0xc12cbcc809ff59f3, 0xa447c850aa694a7e, 0x6267fc79df9d6ad1, 0x1c7b754f08b7d193),
    Quad(0xc6a5214cc0eaca8e, 0xde080f1bb1c0f84b, 0xfa87b01273fa6dbe, 0x8f885a76b6e578fe),
    Quad(0x0c87cd524c14cc5d, 0x595cb8a9a1aca66c, 0x521a715c63e08d8a, 0x2318a24e2140fc64))

  const D1 := Four(
    Quad(0x7d7ebc91065eb487, 0x48daa2180cca574f, 0x4defb1cc1d0e5211, 0x3561197657eee886),
    Quad(0x2985dbd3b522b163, 0x25804d5986d6e07f, 0x53fd198002cb9dc5, 0x9c62f81da3622dd5),
    Quad(0x83dcc7c95110e507, 0x47dc958f84e67b9c, 0xe089c6944d999f41, 0x4134955aae31cc2d),
    Quad(0xd5f7d943ae7a12d4, 0xa2a2bb290a6fa0ac, 0x607c07b706df2755, 0x8f1947927dee7a35))

  const V2 := Four(
    Quad(0x53281e83806010f2, 0xbaabdbb2f386d9ae, 0x224e6a3369224f96, 0x92a3aaaa6d952b7f),
    Quad(0x3594b403f81b4393, 0xca5425aec65a10a8, 0x500e125e58a92923, 0xc5fdf71090fae853),
    Quad(0x8cd63c7462de0dff, 0xc6a22e2ff0f7aa48, 0xe9e4ad0d0e1a0d48, 0x2a8a40f15a462dd0),
    Quad(0x85f693f3da53f974, 0xc6a56a51cb89c595, 0x85df9dc143c59a74, 0x572d17effdd37358))

  const D2 := Four(
    Quad(0x224d9730ddde8c9b, 0x956fe864884ac584, 0x5d62892a32598f4d, 0xeb3719d34531eb68),
    Quad(0xe430476788c41ef0, 0x4dfeb83fd06a086b, 0xc92583e5a4ae6f86, 0xdc073c3e56ef42ae),
    Quad(0x4f163fda2e4243bf, 0x78c811fddf5c5824, 0x1cc968515f81e2e0, 0x3052cabffb0fb2d1),
    Quad(0x41dd8960f0de029d, 0x1161e9566cec8636, 0xaef099868dce0a96, 0x69ea4685aa4d57b0))

  const V3 := Four(
    Quad(0x60ed96aa7ad41725, 0xda0a61bcde4267ea, 0xa1677e19f37fd5da, 0xc804ebab11c99fa9),
    Quad(0xe46a743c71800b9d, 0xb1dd230754d7bdee, 0x22bdce6976b08c51, 0x8e0cec959c715793),
    Quad(0x1a04b543a01f156b, 0x25a1422779e06d14, 0xf1de8696bec11bf1, 0x7c45557fae0d4d89),
    Quad(0xa2f8716e775c4877, 0xe6823ae4c3ff58a5, 0xa0ebd586a4a1d2c8, 0x716343f52fdd265e))

  const D3 := Four(
    Quad(0x6b864497a655fb47, 0x065b83216e96ed93, 0x38bf8d18c9a387f9, 0x21ddda93f0e5d3d8),
    Quad(0xc1fd6110ffa75065, 0xf2d93929736e5b04, 0xd750375d8da19646, 0xe88b2359a43154a6),
    Quad(0x817908f78a142cfa, 0x2795f81cfb8f7633, 0xd2d2821a8aa43e4c, 0x2bb39bdbff08e7ec),
    Quad(0xce1577a72bc1ce7b, 0xc4b99c558f3684e9, 0xa898085d8e04f013, 0x8eee368bc701c9f4))

  const V4 := Four(
    Quad(0xbb2a77d3a8382351, 0x8a03c4cb7e97590a, 0xa9c9a8f17b1fc614, 0x086092cfb858437e),
    Quad(0x45eb47971f23b103, 0x24192e49ebf54ea0, 0x55908187977514a0, 0x5c4be2156dbeecf9),
    Quad(0x98be297f6e45c684, 0x4f82c9401cb32d7a, 0x5b44273e66b19d27, 0x2efede99ed4eff16),
    Quad(0xa36077dee3370b89, 0x8ccd013726420dc4, 0xb6d5c9fca2579327, 0x3e7b5f234cd1f804))

  const D4 := Four(
    Quad(0x3e5bab618a5fbc72, 0xbb2d4d7552ba222d, 0x3a03d6ba54158e95, 0xadd65a4af0cfb375),
    Quad(0x9be6aa793ad3a7c9, 0xcdcfc26e59d1d349, 0xaa550590a17d6cd1, 0x1222a0cc9444c711),
    Quad(0xc5252a4d03f65b2f, 0x8bc33bc025ae3c8e, 0x5a8388e35cb33b75, 0x303dfd40b9230c9c),
    Quad(0x1fe21186bd238be3, 0x475dcc427f3fcd87, 0xec74922286e7b930, 0x7709a29326a5c548))

  const V5 := Four(
    Quad(0xc79c15b3d423b099, 0x0f6d9eeed157da2a, 0xb2240b59e6d567d3, 0xb97d2d439e4df63d),
    Quad(0x2da2224e8da97556, 0x6fe66467af88c0a9, 0x2643c2370e49ebfd, 0xc718e755294c9111),
    Quad(0x77d2b26df1c45c55, 0x4eb0b76284c7aafb, 0x79e02eef20cdb1ae, 0x1f0893f2772bb373),
    Quad(0x8934eb09a3456052, 0x299c8e725d954697, 0x64b3eed7bb602f39, 0x1205ea4a7859807d))

  const D5 := Four(
    Quad(0xf4e55384dc924147, 0x02ca058bf3799684, 0x42b26ef24a2100f5, 0x57dc2cd554e40ca1),
    Quad(0xf015d00b613578c6, 0xb9668b8ebf3fa717, 0x35134241b118cf10, 0xd8a6cfd32f7ab2e6),
    Quad(0x648495058cae3d2f, 0x292f756a3507a223, 0xc601582b84c4b49a, 0x1925e46b74e53ba5),
    Quad(0x54567270ac75c4ea, 0xb7b58d9367a4043d, 0x53e84b90ddbf8985, 0xc70d65404fc75525))

  const V6 := Four(
    Quad(0xe58f97d6385baee4, 0x7127cd48c76a7708, 0x41cca9073c8c4d0d, 0x8733794f07ac1500),
    Quad(0x7640aa9764da137a, 0x9e472af0be3db3f6, 0x5c7912bc10df3b4b, 0xc67a6be42335aa6f),
    Quad(0xdeb4c7c23efe287e, 0x0f244c62ddf71788, 0xa2c3abbd37510ee2, 0xacb22b28681e4c82),
    Quad(0x70f6f41c8783c9f6, 0x219828aa83880842, 0xcb5668cc2a9f7859, 0xdb2161604cbc9828))

  const D6 := Four(
    Quad(0xd0d5bb6a10dae2b5, 0x90ee681d04ce182a, 0x74550619f0763471, 0x34881f3a14e9e908),
    Quad(0xf5d2174aff6cf2cd, 0x7e1ec202f5042fa8, 0x4795d2168937df08, 0xfee428bf8b86c15e),
    Quad(0x39337b3da7e963ab, 0x04d72048395b53ff, 0x391b02b399972abc, 0x4ca1f5f07a552d91),
    Quad(0x588d5ef9a0a6492f, 0x860aa9f111072cea, 0xa93d75cc5e322748, 0x5ca64dd877b9e682))

  const V7 := Four(
    Quad(0x6e2d286eeadedc81, 0x819415b56220c459, 0x04d769b3fcb048db, 0x92aac307cf2c0afc),
    Quad(0xbcf02c0787e86358, 0xb63c479a6a769f02, 0xb78a9a33e9bff4dd, 0x30aaccc4f06dafaa),
    Quad(0x57d56a56dd015edf, 0x258e55e0ec1f362a, 0x5777272ae1e930c0, 0x483893cc094f8863),
    Quad(0x55d899d40a5d0d0a, 0x3a3b4ec60e19dfdc, 0x5a387849e578dbf6, 0xe03c6cc89c26bf92))

  const D7 := Four(
    Quad(0x2c42e52d8c060ff2, 0x1355530d9510b6da, 0x70e55e0e63448924, 0xe113c5832e0abbd3),
    Quad(0xa357b3b1736ec0a1, 0x56af9e7816abf9be, 0xbf9c914183b31c1b, 0xf2d1af914f0bf16d),
    Quad(0xd916516a31320b04, 0x1c460b4a606cc880, 0x7b7cc36bc928376b, 0x7fc4a1651e4130e8),
    Quad(0x41d37d7ecbfc6541, 0x8ffac8c5ec5cb0e6, 0x3981e9894b87e52a, 0x58ff19794c000469))

  const V8 := Four(
    Quad(0xffc83ece76024d01, 0x81937da314a50838, 0xa3c2d35e4f685c10, 0x3841def6f4c9848a),
    Quad(0x1be7bffb8c5cc5f9, 0xe1179523a2541963, 0xa53d3f73aa619624, 0x98662c85fba726d4),
    Quad(0xa35a18cbac4c65b7, 0x3a1fad7106232b8f, 0x30bbcc0285a22f65, 0x7762439bd5a851bd),
    Quad(0xb7c2c7e6d88c285f, 0x1c7ede92ab8b9c46, 0xbcefbb6a81539e5d, 0xb0b9f0d443d1a889))

  const D8 := Four(
    Quad(0xa9126c152d800655, 0xdfe2d8cd3101f453, 0x3e4ba8ddb8e29996, 0xc4fe53007c9d0df7),
    Quad(0xac1632ba715ebf08, 0x41aa56fe49862d7f, 0x49989dfa62e90301, 0x64d2d77cbda6949a),
    Quad(0x7c1849df4e91206f, 0x13e3a2c50cfad099, 0x87047c8ec6295331, 0xc6927901cb3215c7),
    Quad(0x94aaf312690f9253, 0x4165a65ac9e3c45b, 0x40e7b1fdda2d2585, 0xa5c81bdf8924e48a))

  const V9 := Four(
    Quad(0x753a70a1e8faeadd, 0x58540ee1b1aebc47, 0x316cc9ebeefad8fc, 0x88ed6c4f3bd7a537),
    Quad(0x6b0d43ca2c25d629, 0x63c5b9b80d294cb9, 0x4a466bcd021526a4, 0x19ae688ddf67f026),
    Quad(0xf8343ba8b94f8c0b, 0x490870ecad27debd, 0x5da7f7638cec5669, 0x4d8707aab40f7e6d),
    Quad(0xbc7d062b0db5cf35, 0xb2a90ddf667287fe, 0xd9c8826727d306fc, 0xfd3f572687fea4f1))

  const D9 := Four(
    Quad(0xc0df0f0e596ec5a9, 0x65bf544e084bb313, 0x15e30f6c705383f7, 0x0d3efe25194b38bd),
    Quad(0x87ca07d5e3d64cb6, 0x3478342ab05ecf87, 0xdade744ed33782e5, 0xd66561a10d1d1c0d),
    Quad(0xd11bc20e8ef44efc, 0x88274463ca98e874, 0xa9502da0417b08d5, 0xd9b961e2d51134aa),
    Quad(0x0df3ea89aaa44e12, 0xb4014455ff7c2ca0, 0x0a28a074aea2f05d, 0xe5c30363d6ab824f))

  const V10 := Four(
    Quad(0xe630c747ccd59c4f, 0x2d04185eac2a8cba, 0x6dd4fbc1de60165d, 0x2c6b25593d717852),
    Quad(0xbc713d41127571ca, 0x5f311b88904056ec, 0xb3b0b51de3c86270, 0x37e8ca471beaa5f8),
    Quad(0x46db183025025078, 0x40bd313009201aab, 0x900aee2f233b08e5, 0x2cfc1bac10ef4457),
    Quad(0x6727e81260610140, 0x0099d4f82a2a1eab, 0xa07199d87ad058d8, 0x01369ec18746e775))

  const D10 := Four(
    Quad(0xfdd2c6435d5a301b, 0xfcd5d76a6de20047, 0x7afe95b81b3993db, 0x8d7d58ee3d275626),
    Quad(0x6e446afbc3efad36, 0x8b7f1e6cfc2a0039, 0x3bbceb651eeed2c9, 0xcae4b9c0357b6205),
    Quad(0x46d963ee934efeea, 0xadbdc7977150b805, 0x7ccca8ba533b7361, 0x3fb8d71b07b5efa5),
    Quad(0x5523c5b930d1aeb6, 0x2ca29c4d619bafa1, 0xacc8f98717c8e4a3, 0xac2678144c9a382a))

  const V11 := Four(
    Quad(0xe801f73b9768c760, 0xf4f1be86690b3c34, 0x35ba354a9c7df448, 0x61b5c0a41d491399),
    Quad(0x35c6d22320be511d, 0x3cc88735d1475e4b, 0x4929cbe45679d73e, 0xb5c333457e12844a),
    Quad(0x306f27584f65495e, 0x5dac67921ff76949, 0x733d1a17248f39db, 0xbd696be010d0d889),
    Quad(0xb51776adf569a77b, 0x1cdb9d31ad70cc4e, 0x92d57b736f5f170a, 0x02231e1a917fe0bd))

  const D11 := Four(
    Quad(0xac495068076fe1c4, 0xb8eacc53aead98b1, 0x5fae8064a9ba0517, 0x4072027e06ce90be),
    Quad(0xf3ae6a427a75e234, 0x55b2599798b3a4a1, 0x06ed116649fdb58d, 0x94a2b1744065ba29),
    Quad(0x83933b99d54089ee, 0xb20b2179d2dcd8c6, 0xe799f6cc9a2a23d7, 0x88297fb94160bd39),
    Quad(0x31db95ba436e4db7, 0x5198d8d539a3fbce, 0x5d6a76c05f26fe94, 0x6ce4fc1f51b7e632))

  const V12 := Four(
    Quad(0x12ef8a641ec4f6d6, 0xf42c16519ad5afa7, 0x75ab709bd3dcbf24, 0x885bef040ef6aa0b),
    Quad(0xbced5de977c9faf5, 0xaa5ac1888e10467e, 0xee7ce1f345947aa4, 0xa4939a417bfb78a3),
    Quad(0x733ca476c5148639, 0x217d930aa51787f3, 0xf8960d6c2faf5f5e, 0x646cbb7af6dce980),
    Quad(0x97df596b0610f6fc, 0x906a6ff19e573942, 0xe332538a36b6d246, 0xe813a23c60af3b82))

  /** Where the permutations put the first word. */
  lemma Words0()
    ensures FirstWords(ABC, SIGMA_0) == Eight(0x636261, 0, 0, 0, 0, 0, 0, 0)
    ensures LastWords(ABC, SIGMA_0) == Eight(0, 0, 0, 0, 0, 0, 0, 0)
  {
  }

  lemma Words1()
    ensures FirstWords(ABC, SIGMA_1) == Eight(0, 0, 0, 0, 0, 0, 0, 0)
    ensures LastWords(ABC, SIGMA_1) == Eight(0, 0, 0x636261, 0, 0, 0, 0, 0)
  {
  }

  lemma Words2()
    ensures FirstWords(ABC, SIGMA_2) == Eight(0, 0, 0, 0x636261, 0, 0, 0, 0)
    ensures LastWords(ABC, SIGMA_2) == Eight(0, 0, 0, 0, 0, 0, 0, 0)
  {
  }

  lemma Words3()
    ensures FirstWords(ABC, SIGMA_3) == Eight(0, 0, 0, 0, 0, 0, 0, 0)
    ensures LastWords(ABC, SIGMA_3) == Eight(0, 0, 0, 0, 0, 0x636261, 0, 0)
  {
  }

  lemma Words4()
    ensures FirstWords(ABC, SIGMA_4) == Eight(0, 0x636261, 0, 0, 0, 0, 0, 0)
    ensures LastWords(ABC, SIGMA_4) == Eight(0, 0, 0, 0, 0, 0, 0, 0)
  {
  }

  lemma Words5()
    ensures FirstWords(ABC, SIGMA_5) == Eight(0, 0, 0, 0, 0x636261, 0, 0, 0)
    ensures LastWords(ABC, SIGMA_5) == Eight(0, 0, 0, 0, 0, 0, 0, 0)
  {
  }

  lemma Words6()
    ensures FirstWords(ABC, SIGMA_6) == Eight(0, 0, 0, 0, 0, 0, 0, 0)
    ensures LastWords(ABC, SIGMA_6) == Eight(0x636261, 0, 0, 0, 0, 0, 0, 0)
  {
  }

  lemma Words7()
    ensures FirstWords(ABC, SIGMA_7) == Eight(0, 0, 0, 0, 0, 0, 0, 0)
    ensures LastWords(ABC, SIGMA_7) == Eight(0, 0x636261, 0, 0, 0, 0, 0, 0)
  {
  }

  lemma Words8()
    ensures FirstWords(ABC, SIGMA_8) == Eight(0, 0, 0, 0, 0, 0, 0x636261, 0)
    ensures LastWords(ABC, SIGMA_8) == Eight(0, 0, 0, 0, 0, 0, 0, 0)
  {
  }

  lemma Words9()
    ensures FirstWords(ABC, SIGMA_9) == Eight(0, 0, 0, 0, 0, 0, 0, 0)
    ensures LastWords(ABC, SIGMA_9) == Eight(0, 0, 0, 0, 0, 0, 0, 0x636261)
  {
  }

  lemma Halves0()
    ensures Turn(Mixes(V0, Eight(0x636261, 0, 0, 0, 0, 0, 0, 0))) == D0
    ensures TurnBack(Mixes(D0, Eight(0, 0, 0, 0, 0, 0, 0, 0))) == V1
  {
    hide Rounds, Sigma;
  }

  lemma Halves1()
    ensures Turn(Mixes(V1, Eight(0, 0, 0, 0, 0, 0, 0, 0))) == D1
    ensures TurnBack(Mixes(D1, Eight(0, 0, 0x636261, 0, 0, 0, 0, 0))) == V2
  {
    hide Rounds, Sigma;
  }

  lemma Halves2()
    ensures Turn(Mixes(V2, Eight(0, 0, 0, 0x636261, 0, 0, 0, 0))) == D2
    ensures TurnBack(Mixes(D2, Eight(0, 0, 0, 0, 0, 0, 0, 0))) == V3
  {
    hide Rounds, Sigma;
  }

  lemma Halves3()
    ensures Turn(Mixes(V3, Eight(0, 0, 0, 0, 0, 0, 0, 0))) == D3
    ensures TurnBack(Mixes(D3, Eight(0, 0, 0, 0, 0, 0x636261, 0, 0))) == V4
  {
    hide Rounds, Sigma;
  }

  lemma Halves4()
    ensures Turn(Mixes(V4, Eight(0, 0x636261, 0, 0, 0, 0, 0, 0))) == D4
    ensures TurnBack(Mixes(D4, Eight(0, 0, 0, 0, 0, 0, 0, 0))) == V5
  {
    hide Rounds, Sigma;
  }

  lemma Halves5()
    ensures Turn(Mixes(V5, Eight(0, 0, 0, 0, 0x636261, 0, 0, 0))) == D5
    ensures TurnBack(Mixes(D5, Eight(0, 0, 0, 0, 0, 0, 0, 0))) == V6
  {
    hide Rounds, Sigma;
  }

  lemma Halves6()
    ensures Turn(Mixes(V6, Eight(0, 0, 0, 0, 0, 0, 0, 0))) == D6
    ensures TurnBack(Mixes(D6, Eight(0x636261, 0, 0, 0, 0, 0, 0, 0))) == V7
  {
    hide Rounds, Sigma;
  }

  lemma Halves7()
    ensures Turn(Mixes(V7, Eight(0, 0, 0, 0, 0, 0, 0, 0))) == D7
    ensures TurnBack(Mixes(D7, Eight(0, 0x636261, 0, 0, 0, 0, 0, 0))) == V8
  {
    hide Rounds, Sigma;
  }

  lemma Halves8()
    ensures Turn(Mixes(V8, Eight(0, 0, 0, 0, 0, 0, 0x636261, 0))) == D8
    ensures TurnBack(Mixes(D8, Eight(0, 0, 0, 0, 0, 0, 0, 0))) == V9
  {
    hide Rounds, Sigma;
  }

  lemma Halves9()
    ensures Turn(Mixes(V9, Eight(0, 0, 0, 0, 0, 0, 0, 0))) == D9
    ensures TurnBack(Mixes(D9, Eight(0, 0, 0, 0, 0, 0, 0, 0x636261))) == V10
  {
    hide Rounds, Sigma;
  }

  lemma Halves10()
    ensures Turn(Mixes(V10, Eight(0x636261, 0, 0, 0, 0, 0, 0, 0))) == D10
    ensures TurnBack(Mixes(D10, Eight(0, 0, 0, 0, 0, 0, 0, 0))) == V11
  {
    hide Rounds, Sigma;
  }

  lemma Halves11()
    ensures Turn(Mixes(V11, Eight(0, 0, 0, 0, 0, 0, 0, 0))) == D11
    ensures TurnBack(Mixes(D11, Eight(0, 0, 0x636261, 0, 0, 0, 0, 0))) == V12
  {
    hide Rounds, Sigma;
  }

  lemma Round0()
    ensures Round(AsVector(V0), ABC, 0) == AsVector(V1)
  {
    hide Round, Mixes, Turn, TurnBack, FirstWords, LastWords, AsVector, Sigma;
    SigmaOf();
    Words0();
    Halves0();
    RoundIs(V0, ABC, 0);
  }

  lemma Round1()
    ensures Round(AsVector(V1), ABC, 1) == AsVector(V2)
  {
    hide Round, Mixes, Turn, TurnBack, FirstWords, LastWords, AsVector, Sigma;
    SigmaOf();
    Words1();
    Halves1();
    RoundIs(V1, ABC, 1);
  }

  lemma Round2()
    ensures Round(AsVector(V2), ABC, 2) == AsVector(V3)
  {
    hide Round, Mixes, Turn, TurnBack, FirstWords, LastWords, AsVector, Sigma;
    SigmaOf();
    Words2();
    Halves2();
    RoundIs(V2, ABC, 2);
  }

  lemma Round3()
    ensures Round(AsVector(V3), ABC, 3) == AsVector(V4)
  {
    hide Round, Mixes, Turn, TurnBack, FirstWords, LastWords, AsVector, Sigma;
    SigmaOf();
    Words3();
    Halves3();
    RoundIs(V3, ABC, 3);
  }

  lemma Round4()
    ensures Round(AsVector(V4), ABC, 4) == AsVector(V5)
  {
    hide Round, Mixes, Turn, TurnBack, FirstWords, LastWords, AsVector, Sigma;
    SigmaOf();
    Words4();
    Halves4();
    RoundIs(V4, ABC, 4);
  }

  lemma Round5()
    ensures Round(AsVector(V5), ABC, 5) == AsVector(V6)
  {
    hide Round, Mixes, Turn, TurnBack, FirstWords, LastWords, AsVector, Sigma;
    SigmaOf();
    Words5();
    Halves5();
    RoundIs(V5, ABC, 5);
  }

  lemma Round6()
    ensures Round(AsVector(V6), ABC, 6) == AsVector(V7)
  {
    hide Round, Mixes, Turn, TurnBack, FirstWords, LastWords, AsVector, Sigma;
    SigmaOf();
    Words6();
    Halves6();
    RoundIs(V6, ABC, 6);
  }

  lemma Round7()
    ensures Round(AsVector(V7), ABC, 7) == AsVector(V8)
  {
    hide Round, Mixes, Turn, TurnBack, FirstWords, LastWords, AsVector, Sigma;
    SigmaOf();
    Words7();
    Halves7();
    RoundIs(V7, ABC, 7);
  }

  lemma Round8()
    ensures Round(AsVector(V8), ABC, 8) == AsVector(V9)
  {
    hide Round, Mixes, Turn, TurnBack, FirstWords, LastWords, AsVector, Sigma;
    SigmaOf();
    Words8();
    Halves8();
    RoundIs(V8, ABC, 8);
  }

  lemma Round9()
    ensures Round(AsVector(V9), ABC, 9) == AsVector(V10)
  {
    hide Round, Mixes, Turn, TurnBack, FirstWords, LastWords, AsVector, Sigma;
    SigmaOf();
    Words9();
    Halves9();
    RoundIs(V9, ABC, 9);
  }

  lemma Round10()
    ensures Round(AsVector(V10), ABC, 10) == AsVector(V11)
  {
    hide Round, Mixes, Turn, TurnBack, FirstWords, LastWords, AsVector, Sigma;
    SigmaOf();
    Words0();
    Halves10();
    RoundIs(V10, ABC, 10);
  }

  lemma Round11()
    ensures Round(AsVector(V11), ABC, 11) == AsVector(V12)
  {
    hide Round, Mixes, Turn, TurnBack, FirstWords, LastWords, AsVector, Sigma;
    SigmaOf();
    Words1();
    Halves11();
    RoundIs(V11, ABC, 11);
  }

  lemma SigmaOf()
    ensures Sigma(0) == SIGMA_0 && Sigma(1) == SIGMA_1 && Sigma(2) == SIGMA_2 && Sigma(3) == SIGMA_3
    ensures Sigma(4) == SIGMA_4 && Sigma(5) == SIGMA_5 && Sigma(6) == SIGMA_6 && Sigma(7) == SIGMA_7
    ensures Sigma(8) == SIGMA_8 && Sigma(9) == SIGMA_9 && Sigma(10) == SIGMA_0 && Sigma(11) == SIGMA_1
  {
  }

  const ABC_BYTES: seq<Byte> := [0x61, 0x62, 0x63]

  /** The chain value at the end. */
  const ABC_CHAIN: Chain := [
    0x0d4d1c983fa580ba, 0xe9f6129fb697276a, 0xb7c45a68142f214c, 0xd1a2ffdb6fbb124b,
    0x2d79ab2a39c5877d, 0x95cc3345ded552c2, 0x5a92f1dba88ad318, 0x239900d4ed8623b9]

  /** One more round. */
  lemma NextRound(v: Vector, m: Vector, n: nat)
    requires n < 12
    ensures Rounds(v, m, 0) == v && Rounds(v, m, n + 1) == Round(Rounds(v, m, n), m, n)
  {
    hide Round;
  }

  /** Twelve rounds in the order of the trace. */
  lemma AbcRounds()
    ensures Rounds(AsVector(V0), ABC, 12) == AsVector(V12)
  {
    hide Round, Rounds, AsVector;
    NextRound(AsVector(V0), ABC, 0);
    Round0();
    NextRound(AsVector(V0), ABC, 1);
    Round1();
    NextRound(AsVector(V0), ABC, 2);
    Round2();
    NextRound(AsVector(V0), ABC, 3);
    Round3();
    NextRound(AsVector(V0), ABC, 4);
    Round4();
    NextRound(AsVector(V0), ABC, 5);
    Round5();
    NextRound(AsVector(V0), ABC, 6);
    Round6();
    NextRound(AsVector(V0), ABC, 7);
    Round7();
    NextRound(AsVector(V0), ABC, 8);
    Round8();
    NextRound(AsVector(V0), ABC, 9);
    Round9();
    NextRound(AsVector(V0), ABC, 10);
    Round10();
    NextRound(AsVector(V0), ABC, 11);
    Round11();
  }

  lemma AbcWord(i: nat)
    requires i < 16
    ensures WordAt(Padded(ABC_BYTES), 8 * i) == if i == 0 then 0x636261 else 0
  {
    hide LeValue;
    var b := Padded(ABC_BYTES)[8 * i..8 * i + 8];
    LeValuePadded([], 8);
    LeValueNil();
    assert [] + Zeros(8) == Zeros(8);
    if i == 0 {
      assert b == ABC_BYTES + Zeros(5);
      LeValuePadded(ABC_BYTES, 5);
      AbcValue();
    } else {
      assert b == Zeros(8);
    }
  }

  lemma AbcValue()
    ensures LeValue(ABC_BYTES) == 0x636261
  {
    assert ABC_BYTES[1..] == [0x62, 0x63] && ABC_BYTES[1..][1..] == [0x63] && ABC_BYTES[1..][1..][1..] == [];
  }

  lemma AbcBlock()
    ensures LoadBlock(Padded(ABC_BYTES)) == ABC
  {
    hide WordAt, Padded;
    forall i | 0 <= i < 16 ensures Bits(WordAt(Padded(ABC_BYTES), 8 * i)) == ABC[i] { AbcWord(i); }
  }

  const START: Chain := [
    0x6a09e667f2bdc948, 0xbb67ae8584caa73b, 0x3c6ef372fe94f82b, 0xa54ff53a5f1d36f1,
    0x510e527fade682d1, 0x9b05688c2b3e6c1f, 0x1f83d9abfb41bd6b, 0x5be0cd19137e2179]

  /** The chain value before the block: 64 bytes of output and no key. */
  lemma AbcParam()
    ensures ParamChain(FirstWord(64, 0, 1, 1), 0, 0) == START
  {
    hide ParamChain;
    assert FirstWord(64, 0, 1, 1) == 0x101_0040;
    AbcChain();
  }

  lemma AbcChain()
    ensures ParamChain(0x101_0040, 0, 0) == START
  {
    hide Bits;
    AbcBits();
  }

  lemma AbcBits()
    ensures Bits(0x101_0040) == 0x101_0040 && Bits(0) == 0
  {
  }

  /** The working vector: three bytes, the last block. */
  lemma AbcStart()
    ensures StartVector(START, 3, 0, Flag(true), Flag(false)) == AsVector(V0)
  {
    assert Bits(3) == 3 && Bits(0) == 0;
  }

  lemma AbcCompressed()
    ensures F(START, Padded(ABC_BYTES), 3, true, false) == ABC_CHAIN
  {
    hide Rounds, StartVector, LoadBlock, Padded, Flag, Xored3;
    AbcStart();
    AbcBlock();
    AbcRounds();
    AbcFinish(START, AsVector(V12));
  }

  lemma AbcFinish(h: Chain, v: Vector)
    requires h == START && v == AsVector(V12)
    ensures seq(8, i requires 0 <= i < 8 => Xored3(h[i], v[i], v[i + 8])) == ABC_CHAIN
  {
    hide Xored3;
    AbcXors();
  }

  lemma AbcXors()
    ensures Xored3(0x6a09e667f2bdc948, 0x12ef8a641ec4f6d6, 0x75ab709bd3dcbf24) == 0xd4d1c983fa580ba
    ensures Xored3(0xbb67ae8584caa73b, 0xbced5de977c9faf5, 0xee7ce1f345947aa4) == 0xe9f6129fb697276a
    ensures Xored3(0x3c6ef372fe94f82b, 0x733ca476c5148639, 0xf8960d6c2faf5f5e) == 0xb7c45a68142f214c
    ensures Xored3(0xa54ff53a5f1d36f1, 0x97df596b0610f6fc, 0xe332538a36b6d246) == 0xd1a2ffdb6fbb124b
    ensures Xored3(0x510e527fade682d1, 0xf42c16519ad5afa7, 0x885bef040ef6aa0b) == 0x2d79ab2a39c5877d
    ensures Xored3(0x9b05688c2b3e6c1f, 0xaa5ac1888e10467e, 0xa4939a417bfb78a3) == 0x95cc3345ded552c2
    ensures Xored3(0x1f83d9abfb41bd6b, 0x217d930aa51787f3, 0x646cbb7af6dce980) == 0x5a92f1dba88ad318
    ensures Xored3(0x5be0cd19137e2179, 0x906a6ff19e573942, 0xe813a23c60af3b82) == 0x239900d4ed8623b9
  {
  }

  /** The digest holds the words of the chain value, lowest byte first. */
  lemma DigestWord(h: Chain, i: nat)
    requires i < 8
    ensures WordAt(DigestBytes(h), 8 * i) == h[i] as nat
  {
    hide ToBytes, LeValue;
    var words := DigestWords(h);
    ConcatEights(words);
    assert DigestBytes(h)[8 * i..8 * i + 8] == words[i];
    Pow2Of64();
    ToBytesValue(h[i] as nat, 8);
  }

  /** The hash of "abc": appendix A of RFC 7693. */
  lemma AbcDigest()
    ensures var d := Rfc7693(64, [], ABC_BYTES);
            |d| == 64 && forall i :: 0 <= i < 8 ==> WordAt(d, 8 * i) == ABC_CHAIN[i] as nat
  {
    hide F, DigestBytes, ParamChain, FirstWord, Padded;
    AbcParam();
    AbcCompressed();
    assert KeyBlock([]) + ABC_BYTES == ABC_BYTES;
    var d := Rfc7693(64, [], ABC_BYTES);
    assert d == DigestBytes(ABC_CHAIN);
    forall i | 0 <= i < 8 ensures WordAt(d, 8 * i) == ABC_CHAIN[i] as nat { DigestWord(ABC_CHAIN, i); }
  }
}
