/** The ten tables of crc_base.c and crc64_base.c, eight entries to a row, left to right, and lemmas
    that evaluate every row. */
module CrcTables {

  function Column64(row: bv512, j: bv8): bv64 {
    match j
    case 0 => ((row >> 448) & 0xffffffffffffffff) as bv64
    case 1 => ((row >> 384) & 0xffffffffffffffff) as bv64
    case 2 => ((row >> 320) & 0xffffffffffffffff) as bv64
    case 3 => ((row >> 256) & 0xffffffffffffffff) as bv64
    case 4 => ((row >> 192) & 0xffffffffffffffff) as bv64
    case 5 => ((row >> 128) & 0xffffffffffffffff) as bv64
    case 6 => ((row >> 64) & 0xffffffffffffffff) as bv64
    case _ => ((row >> 0) & 0xffffffffffffffff) as bv64
  }

  function Column32(row: bv256, j: bv8): bv32 {
    match j
    case 0 => ((row >> 224) & 0xffffffff) as bv32
    case 1 => ((row >> 192) & 0xffffffff) as bv32
    case 2 => ((row >> 160) & 0xffffffff) as bv32
    case 3 => ((row >> 128) & 0xffffffff) as bv32
    case 4 => ((row >> 96) & 0xffffffff) as bv32
    case 5 => ((row >> 64) & 0xffffffff) as bv32
    case 6 => ((row >> 32) & 0xffffffff) as bv32
    case _ => ((row >> 0) & 0xffffffff) as bv32
  }

  function Column16(row: bv128, j: bv8): bv16 {
    match j
    case 0 => ((row >> 112) & 0xffff) as bv16
    case 1 => ((row >> 96) & 0xffff) as bv16
    case 2 => ((row >> 80) & 0xffff) as bv16
    case 3 => ((row >> 64) & 0xffff) as bv16
    case 4 => ((row >> 48) & 0xffff) as bv16
    case 5 => ((row >> 32) & 0xffff) as bv16
    case 6 => ((row >> 16) & 0xffff) as bv16
    case _ => ((row >> 0) & 0xffff) as bv16
  }

  // Eight steps of the registers, in machine operations.
  function ReflShift(poly: bv64, rem: bv64): bv64 {
    if rem & 1 == 1 then (rem >> 1) ^ poly else rem >> 1
  }

  function ReflShifts(poly: bv64, rem: bv64): bv64 {
    ReflShift(poly, ReflShift(poly, ReflShift(poly, ReflShift(poly,
      ReflShift(poly, ReflShift(poly, ReflShift(poly, ReflShift(poly, rem))))))))
  }

  function NormShift(poly: bv64, rem: bv64): bv64 {
    if rem & 0x8000000000000000 != 0 then (rem << 1) ^ poly else rem << 1
  }

  function NormShifts(poly: bv64, rem: bv64): bv64 {
    NormShift(poly, NormShift(poly, NormShift(poly, NormShift(poly,
      NormShift(poly, NormShift(poly, NormShift(poly, NormShift(poly, rem))))))))
  }

  // ---- the tables, and what their entries are ----

  function EcmaReflTable(x: bv8): bv64 {
    Column64(match x >> 3
      case 0 => 0x0000000000000000b32e4cbe03a75f6ff4843657a840a05b47aa7ae9abe7ff347bd0c384ff8f5e33c8fe8f3afc28015c8f54f5d357cffe683c7ab96d5468a107
      case 1 => 0xf7a18709ff1ebc66448fcbb7fcb9e3090325b15e575e1c3db00bfde054f943528c71448d0091e2553f5f08330336bd3a78f572daa8d1420ecbdb3e64ab761d61
      case 2 => 0x7d9ba13851336649ceb5ed8652943926891f976ff973c6123a31dbd1fad4997d064b62bcaebc387ab5652e02ad1b6715f2cf54eb06fc982141e11855055bc74e
      case 3 => 0x8a3a2631ae2dda2f39146a8fad8a85407ebe1066066d7a74cd905cd805ca251bf1eae5b551a2841c42c4a90b5205db73056ed3e2f9e22447b6409f5cfa457b28
      case 4 => 0xfb374270a266cc9248190ecea1c193fd0fb374270a266cc9bc9d3899098133a680e781f45de992a133c9cd4a5e4ecdce7463b7a3f5a932fac74dfb1df60e6d95
      case 5 => 0x0c96c5795d7870f4bfb889c75edf2f9bf812f32ef538d0af4b3cbf90f69f8fc0774606fda2f72ec7c4684a43a15071a883c230aa0ab78e9c30ec7c140910d1f3
      case 6 => 0x86ace348f355aadb3582aff6f0f2f5b47228d51f5b150a80c10699a158b255effd7c20cc0cdaf4e84e526c720f7dab8709f8169ba49a54b3bad65a25a73d0bdc
      case 7 => 0x710d64410c4b16bdc22328ff0fec49d285895216a40bb6e636a71ea8a7ace9890adda7c5f3c4488eb9f3eb7bf06317e1fe5991925b84e8d54d77dd2c5823b7ba
      case 8 => 0x64b62bcaebc387a1d7986774e864d8ce90321d9d438327fa231c5123402478951f66e84e144cd992ac48a4f017eb86fdebe2de19bc0c79c958cc92a7bfab26a6
      case 9 => 0x9317acc314dd3bc72039e07d177a64a867939a94bc9d9b9cd4bdd62abf3ac4f3e8c76f47eb5265f45be923f9e8f53a9b1c4359104312c5afaf6d15ae40b59ac0
      case 10 => 0x192d8af2baf0e1e8aa03c64cb957be87eda9bca512b041b35e87f01b11171edc62fd4976457fbfdbd1d305c846d8e0b496797f21ed3f1f802557339fee9840ef
      case 11 => 0xee8c0dfb45ee5d8e5da24145464902e11a083bacedaefdd5a9267712ee09a2ba955cce7fba6103bd267282c1b9c65cd261d8f8281221a3e6d2f6b4961186fc89
      case 12 => 0x9f8169ba49a54b332caf25044a02145c6b055fede1e5eb68d82b1353e242b407e451aa3eb62a1500577fe680b58d4a6f10d59c691e6ab55ba3fbd0d71dcdea34
      case 13 => 0x6820eeb3b6bbf755db0ea20db51ca83a9ca4d8e41efb570e2f8a945a1d5c086113f02d374934a966a0de61894a93f609e7741b60e174093d545a57dee2d35652
      case 14 => 0xe21ac88218962d7a5134843c1b317215169efed5b0d68d21a5b0b26bb371d24e99ca0b06e71973492ae447b8e4be2c266d4e3d514f59d312de6071ef4cfe8c7d
      case 15 => 0x15bb4f8be788911ca6950335e42fce73e13f79dc4fc83147521135624c6f6e286e6b8c0f1807cf2fdd45c0b11ba090409aefba58b0476f7429c1f6e6b3e0301b
      case 16 => 0xc96c5795d7870f427a421b2bd420502d3de861c27fc7af198ec62d7c7c60f076b2bc9411280851710192d8af2baf0e1e4638a2468048f12af516eef883efae45
      case 17 => 0x3ecdd09c2899b3248de39c222b3eec4bca49e6cb80d9137f7967aa75837e4c10451d1318d716ed17f6335fa6d4b1b278b199254f7f564d4c02b769f17cf11223
      case 18 => 0xb4f7f6ad86b4690b07d9ba13851336644073c0fa2ef4c950f35d8c442d53963fcf273529793b37387c0979977a9c68573ba3037ed17b9763888d4fc0d2dcc80c
      case 19 => 0x435671a479aad56df0783d1a7a0d8a02b7d247f3d1ea753604fc0b4dd24d2a593886b22086258b5e8ba8fe9e8582d431cc0284772e652b057f2cc8c92dc2746a
      case 20 => 0x325b15e575e1c3d08175595b76469cbfc6df23b2dda1638b75f16f0cde063ce4498bd6618a6e9de3faa59adf89c9c28cbd0fe036222e3db80e21ac88218962d7
      case 21 => 0xc5fa92ec8aff7fb676d4de52895820d9317ea4bb22bfdfed8250e80521188082be2a5168757021850d041dd676d77eea4aae673fdd3081def9802b81de97deb1
      case 22 => 0x4fc0b4dd24d2a599fceef8632775faf6bb44828a8c9205c2086ace348f355aad34107759db5dfbaa873e3be7d8faa4c5c094410e731d5bf173ba0db070ba049e
      case 23 => 0xb86133d4dbcc19ff0b4f7f6ad86b46904ce50583738cb9a4ffcb493d702be6cbc3b1f050244347cc709fbcee27e418a33735c6078c03e797841b8ab98fa4b8f8
      case 24 => 0xadda7c5f3c4488e31ef430e13fe3d78c595e4a08940428b8ea7006b697a377d7d60abfdbc3cbd6d06524f365c06c89bf228e898c6b8b768b91a0c532682c29e4
      case 25 => 0x5a7bfb56c35a3485e955b7e8c0fd6beaaeffcd016b1a94de1dd181bf68bdcbb121ab38d23cd56ab69285746c3f7235d9d52f0e859495caed6601423b97329582
      case 26 => 0xd041dd676d77eeaa636f91d96ed0b1c524c5eb30c5374ef197eba78ec690119eab911ee392f8b09918bf525d915feff65f1528b43ab810c2ec3b640a391f4fad
      case 27 => 0x27e05a6e926952cc94ce16d091ce0da3d3646c393a29f297604a2087398eadf85c3099ea6de60cffef1ed5546e415390a8b4afbdc5a6aca41b9ae303c601f3cb
      case 28 => 0x56ed3e2f9e224471e5c372919d851b1ea26908783662e42a114744c635c5bb452d3dfdab61ad1a429e13b115620a452dd9b9cbfcc9edba196a978742ca4ae576
      case 29 => 0xa14cb926613cf8171262f598629ba77855c88f71c97c584ce6e6c3cfcadb0723da9c7aa29eb3a62469b2361c9d14f94b2e184cf536f3067f9d36004b35545910
      case 30 => 0x2b769f17cf1122389858d3a9ccb67d57dff2a940675182636cdce5fe64f6dd0c50a65c93309e7c0be388102d33392364a4226ac498dedc50170c267a9b79833f
      case _ => 0xdcd7181e300f9e5e6ff954a033a8c13128532e49984f3e059b7d62f79be8616aa707db9acf80c06d14299724cc279f025383edcd67c06036e0ada17364673f59
      , x & 7)
  }

  lemma EcmaRefl0(x: bv8)
    requires x >> 5 == 0
    ensures EcmaReflTable(x) == ReflShifts(0xc96c5795d7870f42, x as bv64)
  {
  }

  lemma EcmaRefl1(x: bv8)
    requires x >> 5 == 1
    ensures EcmaReflTable(x) == ReflShifts(0xc96c5795d7870f42, x as bv64)
  {
  }

  lemma EcmaRefl2(x: bv8)
    requires x >> 5 == 2
    ensures EcmaReflTable(x) == ReflShifts(0xc96c5795d7870f42, x as bv64)
  {
  }

  lemma EcmaRefl3(x: bv8)
    requires x >> 5 == 3
    ensures EcmaReflTable(x) == ReflShifts(0xc96c5795d7870f42, x as bv64)
  {
  }

  lemma EcmaRefl4(x: bv8)
    requires x >> 5 == 4
    ensures EcmaReflTable(x) == ReflShifts(0xc96c5795d7870f42, x as bv64)
  {
  }

  lemma EcmaRefl5(x: bv8)
    requires x >> 5 == 5
    ensures EcmaReflTable(x) == ReflShifts(0xc96c5795d7870f42, x as bv64)
  {
  }

  lemma EcmaRefl6(x: bv8)
    requires x >> 5 == 6
    ensures EcmaReflTable(x) == ReflShifts(0xc96c5795d7870f42, x as bv64)
  {
  }

  lemma EcmaRefl7(x: bv8)
    requires x >> 5 == 7
    ensures EcmaReflTable(x) == ReflShifts(0xc96c5795d7870f42, x as bv64)
  {
  }

  lemma EcmaReflSteps(x: bv8)
    ensures EcmaReflTable(x) == ReflShifts(0xc96c5795d7870f42, x as bv64)
  {
    hide EcmaReflTable, ReflShifts;
    match x >> 5
    case 0 => EcmaRefl0(x);
    case 1 => EcmaRefl1(x);
    case 2 => EcmaRefl2(x);
    case 3 => EcmaRefl3(x);
    case 4 => EcmaRefl4(x);
    case 5 => EcmaRefl5(x);
    case 6 => EcmaRefl6(x);
    case _ => EcmaRefl7(x);
  }

  function EcmaNormTable(x: bv8): bv64 {
    Column64(match x >> 3
      case 0 => 0x000000000000000042f0e1eba9ea369385e1c3d753d46d26c711223cfa3e5bb5493366450e42ecdf0bc387aea7a8da4cccd2a5925d9681f98e224479f47cb76a
      case 1 => 0x9266cc8a1c85d9bed0962d61b56fef2d17870f5d4f51b4985577eeb6e6bb820bdb55aacf12c7356199a54b24bb2d03f25eb46918411358471c4488f3e8f96ed4
      case 2 => 0x663d78ff90e185ef24cd9914390bb37ce3dcbb28c335e8c9a12c5ac36adfde5a2f0e1eba9ea369306dfeff5137495fa3aaefdd6dcd770416e81f3c86649d3285
      case 3 => 0xf45bb4758c645c51b6ab559e258e6ac271ba77a2dfb03177334a9649765a07e4bd68d2308226b08eff9833db2bcc861d388911e7d1f2dda87a79f00c7818eb3b
      case 4 => 0xcc7af1ff21c30bde8e8a101488293d4d499b3228721766f80b6bd3c3dbfd506b854997ba2f81e701c7b97651866bd19200a8546d7c558a274258b586d5bfbcb4
      case 5 => 0x5e1c3d753d46d2601cecdc9e94ace4f3dbfdfea26e92bf46990d1f49c77889d5172f5b3033043ebf55dfbadb9aee082c92ce98e760d05399d03e790cc93a650a
      case 6 => 0xaa478900b1228e31e8b768eb18c8b8a22fa64ad7e2f6e3176d56ab3c4b1cd584e374ef45bf6062eea1840eae168a547d66952c92ecb40fc82465cd79455e395b
      case 7 => 0x3821458aada7578f7ad1a461044d611cbdc0865dfe733aa9ff3067b657990c3a711223cfa3e5bb5033e2c2240a0f8dc3f4f3e018f031d676b60301f359dbe0e5
      case 8 => 0xda050215ea6c212f98f5e3fe438617bc5fe4c1c2b9b84c091d14202910527a9a93366450e42ecdf0d1c685bb4dc4fb6316d7a787b7faa0d65427466c1e109645
      case 9 => 0x4863ce9ff6e9f8910a932f745f03ce02cd820d48a53d95b78f72eca30cd7a3240150a8daf8ab144e43a04931514122dd84b16b0dab7f7968c6418ae602954ffb
      case 10 => 0xbc387aea7a8da4c0fec89b01d367925339d9b93d2959c9e67b2958d680b3ff75f50b1caf74cf481fb7fbfd44dd257e8c70eadf78271b2539321a3e938ef113aa
      case 11 => 0x2e5eb66066087d7e6cae578bcfe24bedabbf75b735dc1058e94f945c9c3626cb676dd025684a91a1259d31cec1a0a732e28c13f23b9efc87a07cf2199274ca14
      case 12 => 0x167ff3eacbaf2af1548f120162451c62939e303d987b47d7d16ed1d6319171445f4c95afc5edc62e1dbc74446c07f0bddaad56789639ab08985db7933fd39d9b
      case 13 => 0x84193f60d72af34fc6e9de8b7ec0c5dc01f8fcb784fe9e6943081d5c2d14a8facd2a5925d9681f908fdab8ce7082290348cb9af28abc72b60a3b7b1923564425
      case 14 => 0x70428b155b4eaf1e32b26afef2a4998df5a348c2089ac238b753a929a170f4ab3971ed50550c43c17b810cbbfce67552bc902e8706d82ee7fe60cf6caf321874
      case 15 => 0xe224479f47cb76a0a0d4a674ee21403367c58448141f1b86253565a3bdf52d15ab1721da49899a7fe9e7c031e063acec2ef6e20d1a5df7596c0603e6b3b7c1ca
      case 16 => 0xf6fae5c07d3274cdb40a042bd4d8425e731b26172ee619eb31ebc7fc870c2f78bfc9838573709812fd39626eda9aae813a28405220a4f53478d8a1b9894ec3a7
      case 17 => 0x649c294a61b7ad73266cc8a1c85d9be0e17dea9d3263c055a38d0b769b89f6c62daf4f0f6ff541ac6f5faee4c61f773fa84e8cd83c212c8aeabe6d3395cb1a19
      case 18 => 0x90c79d3fedd3f122d2377cd44439c7b115265ee8be079c0457d6bf0317edaa97d9f4fb7ae3911dfd9b041a914a7b2b6e5c1538adb04570db1ee5d94619af4648
      case 19 => 0x02a151b5f156289c4051b05e58bc1e0f87409262a28245bac5b073890b6873294b9237f0ff14c4430962d61b56fef2d0ce73f427acc0a9658c8315cc052a9ff6
      case 20 => 0x3a80143f5cf17f137870f5d4f51b4980bf61d7e80f251235fd913603a6cf24a673b3727a52b393cc31439391fb59a55ff652b1ad0167feeab4a25046a88dc879
      case 21 => 0xa8e6d8b54074a6adea16395ee99e903e2d071b6213a0cb8b6ff7fa89ba4afd18e1d5bef04e364a72a3255f1be7dc7ce164347d271de2275426c49cccb40811c7
      case 22 => 0x5cbd6cc0cc10fafc1e4d8d2b65facc6fd95caf179fc497da9bac4efc362ea149158e0a85c2521623577eeb6e6bb820b0906fc95291867b05d29f28b9386c4d96
      case 23 => 0xcedba04ad09523428c2b41a1797f15d14b3a639d83414e6409ca82762aab78f787e8c60fded7cf9dc51827e4773df90e020905d88d03a2bb40f9e43324e99428
      case 24 => 0x2cffe7d5975e55e26e0f063e3eb46371a91e2402c48a38c4ebeec5e96d600e5765cc8190991cb93d273c607b30f68faee02d4247cac8d41ba2dda3ac6322e288
      case 25 => 0xbe992b5f8bdb8c5cfc69cab42231bacf3b78e888d80fe17a7988096371e5d7e9f7aa4d1a85996083b55aacf12c735610724b8ecdd64d0da530bb6f267fa73b36
      case 26 => 0x4ac29f2a07bfd00d08327ec1ae55e69ecf235cfd546bbd2b8dd3bd16fd818bb803f1f96f09fd3cd241011884a0170a4186103ab85a2951f4c4e0db53f3c36767
      case 27 => 0xd8a453a01b3a09b39a54b24bb2d03f205d45907748ee64951fb5719ce1045206919735e51578e56cd367d40ebc92d3ff1476f63246ac884a568617d9ef46bed9
      case 28 => 0xe085162ab69d5e3ca275f7c11f7768af6564d5fde549331a279434164ca30589a9b6706fb8dfb2e3eb469184113584702c57b3b8eb0bdfc56ea7525342e1e956
      case 29 => 0x72e3daa0aa18878230133b4b03f2b111f7021977f9cceaa4b5f2f89c5026dc373bd0bce5a45a6b5d79205d0e0db05dcebe317f32f78e067bfcc19ed95e6430e8
      case 30 => 0x86b86ed5267cdbd3c4488f3e8f96ed400359ad0275a8b6f541a94ce9dc428066cf8b0890283e370c8d7be97b81d4019f4a6acb477bea5a2a089a2aacd2006cb9
      case _ => 0x14dea25f3af9026d562e43b4931334fe913f6188692d6f4bd3cf8063c0c759d85dedc41a34bbeeb21f1d25f19d51d821d80c07cd676f83949afce626ce85b507
      , x & 7)
  }

  lemma EcmaNorm0(x: bv8)
    requires x >> 5 == 0
    ensures EcmaNormTable(x) == NormShifts(0x42f0e1eba9ea3693, x as bv64 << 56)
  {
  }

  lemma EcmaNorm1(x: bv8)
    requires x >> 5 == 1
    ensures EcmaNormTable(x) == NormShifts(0x42f0e1eba9ea3693, x as bv64 << 56)
  {
  }

  lemma EcmaNorm2(x: bv8)
    requires x >> 5 == 2
    ensures EcmaNormTable(x) == NormShifts(0x42f0e1eba9ea3693, x as bv64 << 56)
  {
  }

  lemma EcmaNorm3(x: bv8)
    requires x >> 5 == 3
    ensures EcmaNormTable(x) == NormShifts(0x42f0e1eba9ea3693, x as bv64 << 56)
  {
  }

  lemma EcmaNorm4(x: bv8)
    requires x >> 5 == 4
    ensures EcmaNormTable(x) == NormShifts(0x42f0e1eba9ea3693, x as bv64 << 56)
  {
  }

  lemma EcmaNorm5(x: bv8)
    requires x >> 5 == 5
    ensures EcmaNormTable(x) == NormShifts(0x42f0e1eba9ea3693, x as bv64 << 56)
  {
  }

  lemma EcmaNorm6(x: bv8)
    requires x >> 5 == 6
    ensures EcmaNormTable(x) == NormShifts(0x42f0e1eba9ea3693, x as bv64 << 56)
  {
  }

  lemma EcmaNorm7(x: bv8)
    requires x >> 5 == 7
    ensures EcmaNormTable(x) == NormShifts(0x42f0e1eba9ea3693, x as bv64 << 56)
  {
  }

  lemma EcmaNormSteps(x: bv8)
    ensures EcmaNormTable(x) == NormShifts(0x42f0e1eba9ea3693, x as bv64 << 56)
  {
    hide EcmaNormTable, NormShifts;
    match x >> 5
    case 0 => EcmaNorm0(x);
    case 1 => EcmaNorm1(x);
    case 2 => EcmaNorm2(x);
    case 3 => EcmaNorm3(x);
    case 4 => EcmaNorm4(x);
    case 5 => EcmaNorm5(x);
    case 6 => EcmaNorm6(x);
    case _ => EcmaNorm7(x);
  }

  function IsoReflTable(x: bv8): bv64 {
    Column64(match x >> 3
      case 0 => 0x000000000000000001b0000000000000036000000000000002d000000000000006c0000000000000077000000000000005a00000000000000410000000000000
      case 1 => 0x0d800000000000000c300000000000000ee00000000000000f500000000000000b400000000000000af000000000000008200000000000000990000000000000
      case 2 => 0x1b000000000000001ab0000000000000186000000000000019d00000000000001dc00000000000001c700000000000001ea00000000000001f10000000000000
      case 3 => 0x1680000000000000173000000000000015e00000000000001450000000000000104000000000000011f000000000000013200000000000001290000000000000
      case 4 => 0x360000000000000037b0000000000000356000000000000034d000000000000030c0000000000000317000000000000033a00000000000003210000000000000
      case 5 => 0x3b800000000000003a3000000000000038e000000000000039500000000000003d400000000000003cf00000000000003e200000000000003f90000000000000
      case 6 => 0x2d000000000000002cb00000000000002e600000000000002fd00000000000002bc00000000000002a7000000000000028a00000000000002910000000000000
      case 7 => 0x2080000000000000213000000000000023e00000000000002250000000000000264000000000000027f000000000000025200000000000002490000000000000
      case 8 => 0x6c000000000000006db00000000000006f600000000000006ed00000000000006ac00000000000006b7000000000000069a00000000000006810000000000000
      case 9 => 0x6180000000000000603000000000000062e00000000000006350000000000000674000000000000066f000000000000064200000000000006590000000000000
      case 10 => 0x770000000000000076b0000000000000746000000000000075d000000000000071c0000000000000707000000000000072a00000000000007310000000000000
      case 11 => 0x7a800000000000007b3000000000000079e000000000000078500000000000007c400000000000007df00000000000007f200000000000007e90000000000000
      case 12 => 0x5a000000000000005bb0000000000000596000000000000058d00000000000005cc00000000000005d700000000000005fa00000000000005e10000000000000
      case 13 => 0x5780000000000000563000000000000054e00000000000005550000000000000514000000000000050f000000000000052200000000000005390000000000000
      case 14 => 0x410000000000000040b0000000000000426000000000000043d000000000000047c0000000000000467000000000000044a00000000000004510000000000000
      case 15 => 0x4c800000000000004d300000000000004fe00000000000004e500000000000004a400000000000004bf000000000000049200000000000004890000000000000
      case 16 => 0xd800000000000000d9b0000000000000db60000000000000dad0000000000000dec0000000000000df70000000000000dda0000000000000dc10000000000000
      case 17 => 0xd580000000000000d430000000000000d6e0000000000000d750000000000000d340000000000000d2f0000000000000d020000000000000d190000000000000
      case 18 => 0xc300000000000000c2b0000000000000c060000000000000c1d0000000000000c5c0000000000000c470000000000000c6a0000000000000c710000000000000
      case 19 => 0xce80000000000000cf30000000000000cde0000000000000cc50000000000000c840000000000000c9f0000000000000cb20000000000000ca90000000000000
      case 20 => 0xee00000000000000efb0000000000000ed60000000000000ecd0000000000000e8c0000000000000e970000000000000eba0000000000000ea10000000000000
      case 21 => 0xe380000000000000e230000000000000e0e0000000000000e150000000000000e540000000000000e4f0000000000000e620000000000000e790000000000000
      case 22 => 0xf500000000000000f4b0000000000000f660000000000000f7d0000000000000f3c0000000000000f270000000000000f0a0000000000000f110000000000000
      case 23 => 0xf880000000000000f930000000000000fbe0000000000000fa50000000000000fe40000000000000fff0000000000000fd20000000000000fc90000000000000
      case 24 => 0xb400000000000000b5b0000000000000b760000000000000b6d0000000000000b2c0000000000000b370000000000000b1a0000000000000b010000000000000
      case 25 => 0xb980000000000000b830000000000000bae0000000000000bb50000000000000bf40000000000000bef0000000000000bc20000000000000bd90000000000000
      case 26 => 0xaf00000000000000aeb0000000000000ac60000000000000add0000000000000a9c0000000000000a870000000000000aaa0000000000000ab10000000000000
      case 27 => 0xa280000000000000a330000000000000a1e0000000000000a050000000000000a440000000000000a5f0000000000000a720000000000000a690000000000000
      case 28 => 0x820000000000000083b0000000000000816000000000000080d000000000000084c0000000000000857000000000000087a00000000000008610000000000000
      case 29 => 0x8f800000000000008e300000000000008ce00000000000008d50000000000000894000000000000088f00000000000008a200000000000008b90000000000000
      case 30 => 0x990000000000000098b00000000000009a600000000000009bd00000000000009fc00000000000009e700000000000009ca00000000000009d10000000000000
      case _ => 0x9480000000000000953000000000000097e00000000000009650000000000000924000000000000093f000000000000091200000000000009090000000000000
      , x & 7)
  }

  lemma IsoRefl0(x: bv8)
    requires x >> 5 == 0
    ensures IsoReflTable(x) == ReflShifts(0xd800000000000000, x as bv64)
  {
  }

  lemma IsoRefl1(x: bv8)
    requires x >> 5 == 1
    ensures IsoReflTable(x) == ReflShifts(0xd800000000000000, x as bv64)
  {
  }

  lemma IsoRefl2(x: bv8)
    requires x >> 5 == 2
    ensures IsoReflTable(x) == ReflShifts(0xd800000000000000, x as bv64)
  {
  }

  lemma IsoRefl3(x: bv8)
    requires x >> 5 == 3
    ensures IsoReflTable(x) == ReflShifts(0xd800000000000000, x as bv64)
  {
  }

  lemma IsoRefl4(x: bv8)
    requires x >> 5 == 4
    ensures IsoReflTable(x) == ReflShifts(0xd800000000000000, x as bv64)
  {
  }

  lemma IsoRefl5(x: bv8)
    requires x >> 5 == 5
    ensures IsoReflTable(x) == ReflShifts(0xd800000000000000, x as bv64)
  {
  }

  lemma IsoRefl6(x: bv8)
    requires x >> 5 == 6
    ensures IsoReflTable(x) == ReflShifts(0xd800000000000000, x as bv64)
  {
  }

  lemma IsoRefl7(x: bv8)
    requires x >> 5 == 7
    ensures IsoReflTable(x) == ReflShifts(0xd800000000000000, x as bv64)
  {
  }

  lemma IsoReflSteps(x: bv8)
    ensures IsoReflTable(x) == ReflShifts(0xd800000000000000, x as bv64)
  {
    hide IsoReflTable, ReflShifts;
    match x >> 5
    case 0 => IsoRefl0(x);
    case 1 => IsoRefl1(x);
    case 2 => IsoRefl2(x);
    case 3 => IsoRefl3(x);
    case 4 => IsoRefl4(x);
    case 5 => IsoRefl5(x);
    case 6 => IsoRefl6(x);
    case _ => IsoRefl7(x);
  }

  function IsoNormTable(x: bv8): bv64 {
    Column64(match x >> 3
      case 0 => 0x0000000000000000000000000000001b0000000000000036000000000000002d000000000000006c0000000000000077000000000000005a0000000000000041
      case 1 => 0x00000000000000d800000000000000c300000000000000ee00000000000000f500000000000000b400000000000000af00000000000000820000000000000099
      case 2 => 0x00000000000001b000000000000001ab0000000000000186000000000000019d00000000000001dc00000000000001c700000000000001ea00000000000001f1
      case 3 => 0x00000000000001680000000000000173000000000000015e00000000000001450000000000000104000000000000011f00000000000001320000000000000129
      case 4 => 0x0000000000000360000000000000037b0000000000000356000000000000034d000000000000030c0000000000000317000000000000033a0000000000000321
      case 5 => 0x00000000000003b800000000000003a3000000000000038e000000000000039500000000000003d400000000000003cf00000000000003e200000000000003f9
      case 6 => 0x00000000000002d000000000000002cb00000000000002e600000000000002fd00000000000002bc00000000000002a7000000000000028a0000000000000291
      case 7 => 0x00000000000002080000000000000213000000000000023e00000000000002250000000000000264000000000000027f00000000000002520000000000000249
      case 8 => 0x00000000000006c000000000000006db00000000000006f600000000000006ed00000000000006ac00000000000006b7000000000000069a0000000000000681
      case 9 => 0x00000000000006180000000000000603000000000000062e00000000000006350000000000000674000000000000066f00000000000006420000000000000659
      case 10 => 0x0000000000000770000000000000076b0000000000000746000000000000075d000000000000071c0000000000000707000000000000072a0000000000000731
      case 11 => 0x00000000000007a800000000000007b3000000000000079e000000000000078500000000000007c400000000000007df00000000000007f200000000000007e9
      case 12 => 0x00000000000005a000000000000005bb0000000000000596000000000000058d00000000000005cc00000000000005d700000000000005fa00000000000005e1
      case 13 => 0x00000000000005780000000000000563000000000000054e00000000000005550000000000000514000000000000050f00000000000005220000000000000539
      case 14 => 0x0000000000000410000000000000040b0000000000000426000000000000043d000000000000047c0000000000000467000000000000044a0000000000000451
      case 15 => 0x00000000000004c800000000000004d300000000000004fe00000000000004e500000000000004a400000000000004bf00000000000004920000000000000489
      case 16 => 0x0000000000000d800000000000000d9b0000000000000db60000000000000dad0000000000000dec0000000000000df70000000000000dda0000000000000dc1
      case 17 => 0x0000000000000d580000000000000d430000000000000d6e0000000000000d750000000000000d340000000000000d2f0000000000000d020000000000000d19
      case 18 => 0x0000000000000c300000000000000c2b0000000000000c060000000000000c1d0000000000000c5c0000000000000c470000000000000c6a0000000000000c71
      case 19 => 0x0000000000000ce80000000000000cf30000000000000cde0000000000000cc50000000000000c840000000000000c9f0000000000000cb20000000000000ca9
      case 20 => 0x0000000000000ee00000000000000efb0000000000000ed60000000000000ecd0000000000000e8c0000000000000e970000000000000eba0000000000000ea1
      case 21 => 0x0000000000000e380000000000000e230000000000000e0e0000000000000e150000000000000e540000000000000e4f0000000000000e620000000000000e79
      case 22 => 0x0000000000000f500000000000000f4b0000000000000f660000000000000f7d0000000000000f3c0000000000000f270000000000000f0a0000000000000f11
      case 23 => 0x0000000000000f880000000000000f930000000000000fbe0000000000000fa50000000000000fe40000000000000fff0000000000000fd20000000000000fc9
      case 24 => 0x0000000000000b400000000000000b5b0000000000000b760000000000000b6d0000000000000b2c0000000000000b370000000000000b1a0000000000000b01
      case 25 => 0x0000000000000b980000000000000b830000000000000bae0000000000000bb50000000000000bf40000000000000bef0000000000000bc20000000000000bd9
      case 26 => 0x0000000000000af00000000000000aeb0000000000000ac60000000000000add0000000000000a9c0000000000000a870000000000000aaa0000000000000ab1
      case 27 => 0x0000000000000a280000000000000a330000000000000a1e0000000000000a050000000000000a440000000000000a5f0000000000000a720000000000000a69
      case 28 => 0x0000000000000820000000000000083b0000000000000816000000000000080d000000000000084c0000000000000857000000000000087a0000000000000861
      case 29 => 0x00000000000008f800000000000008e300000000000008ce00000000000008d50000000000000894000000000000088f00000000000008a200000000000008b9
      case 30 => 0x0000000000000990000000000000098b00000000000009a600000000000009bd00000000000009fc00000000000009e700000000000009ca00000000000009d1
      case _ => 0x00000000000009480000000000000953000000000000097e00000000000009650000000000000924000000000000093f00000000000009120000000000000909
      , x & 7)
  }

  lemma IsoNorm0(x: bv8)
    requires x >> 5 == 0
    ensures IsoNormTable(x) == NormShifts(0x1b, x as bv64 << 56)
  {
  }

  lemma IsoNorm1(x: bv8)
    requires x >> 5 == 1
    ensures IsoNormTable(x) == NormShifts(0x1b, x as bv64 << 56)
  {
  }

  lemma IsoNorm2(x: bv8)
    requires x >> 5 == 2
    ensures IsoNormTable(x) == NormShifts(0x1b, x as bv64 << 56)
  {
  }

  lemma IsoNorm3(x: bv8)
    requires x >> 5 == 3
    ensures IsoNormTable(x) == NormShifts(0x1b, x as bv64 << 56)
  {
  }

  lemma IsoNorm4(x: bv8)
    requires x >> 5 == 4
    ensures IsoNormTable(x) == NormShifts(0x1b, x as bv64 << 56)
  {
  }

  lemma IsoNorm5(x: bv8)
    requires x >> 5 == 5
    ensures IsoNormTable(x) == NormShifts(0x1b, x as bv64 << 56)
  {
  }

  lemma IsoNorm6(x: bv8)
    requires x >> 5 == 6
    ensures IsoNormTable(x) == NormShifts(0x1b, x as bv64 << 56)
  {
  }

  lemma IsoNorm7(x: bv8)
    requires x >> 5 == 7
    ensures IsoNormTable(x) == NormShifts(0x1b, x as bv64 << 56)
  {
  }

  lemma IsoNormSteps(x: bv8)
    ensures IsoNormTable(x) == NormShifts(0x1b, x as bv64 << 56)
  {
    hide IsoNormTable, NormShifts;
    match x >> 5
    case 0 => IsoNorm0(x);
    case 1 => IsoNorm1(x);
    case 2 => IsoNorm2(x);
    case 3 => IsoNorm3(x);
    case 4 => IsoNorm4(x);
    case 5 => IsoNorm5(x);
    case 6 => IsoNorm6(x);
    case _ => IsoNorm7(x);
  }

  function JonesReflTable(x: bv8): bv64 {
    Column64(match x >> 3
      case 0 => 0x00000000000000007ad870c830358979f5b0e190606b12f28f689158505e9b8bc038e5739841b68fbae095bba8743ff6358804e3f82aa47d4f50742bc81f2d04
      case 1 => 0xab28ecb46814fe75d1f09c7c5821770c5e980d24087fec8724407dec384a65fe6b1009c7f05548fa11c8790fc060c1839ea0e857903e5a08e478989fa00bd371
      case 2 => 0x7d08ff3b88be6f8107d08ff3b88be6f888b81eabe8d57d73f2606e63d8e0f40abd301a4810ffd90ec7e86a8020ca50774880fbd87094cbfc32588b1040a14285
      case 3 => 0xd620138fe0aa91f4acf86347d09f188d2390f21f80c18306594882d7b0f40a7f1618f6fc78eb277b6cc0863448deae02e3a8176c18803589997067a428b5bcf0
      case 4 => 0xfa11fe77117cdf0280c98ebf2149567b0fa11fe77117cdf075796f2f412244893a291b04893d698d40f16bccb908e0f4cf99fa94e9567b7fb5418a5cd963f206
      case 5 => 0x513912c3796821772be1620b495da80ea489f35319033385de51839b2936bafc9101f7b0e12997f8ebd98778d11c1e8164b116208142850a1e6966e8b1770c73
      case 6 => 0x8719014c99c2b083fdc17184a9f739fa72a9e0dcf9a9a27108719014c99c2b084721e43f0183060c3df994f731b68f75b29105af61e814fec849756751dd9d87
      case 7 => 0x2c31edf8f1d64ef656e99d30c1e3c78fd9810c6891bd5c04a3597ca0a188d57dec09088b6997f87996d1784359a2710019b9e91b09fcea8b636199d339c963f2
      case 8 => 0xdf7adabd7a6e2d6fa5a2aa754a5ba4162aca3b2d1a053f9d50124be52a30b6e41f423fcee22f9be0659a4f06d21a1299eaf2de5e82448912902aae96b271006b
      case 9 => 0x74523609127ad31a0e8a46c1224f5a6381e2d7997211c1e8fb3aa75142244891b46ad37a8a3b6595ceb2a3b2ba0eecec41da32eaea5077673b024222da65fe1e
      case 10 => 0xa2722586f2d042eed8aa554ec2e5cb9757c2c41692bb501c2d1ab4dea28ed965624ac0f56a91f4611892b03d5aa47d1897fa21650afae693ed2251ad3acf6fea
      case 11 => 0x095ac9329ac4bc9b7382b9faaaf135e2fcea28a2faafae698632586aca9a2710c9622c4102850a14b3ba5c8932b0836d3cd2cdd162ee18e6460abd1952db919f
      case 12 => 0x256b24ca6b12f26d5fb354025b277b14d0dbc55a0b79e09faa03b5923b4c69e6e553c1b9f35344e29f8bb171c366cd9b10e32029933856106a3b50e1a30ddf69
      case 13 => 0x8e43c87e03060c18f49bb8b6333385617bf329ee636d1eea012b5926535897934e7b2d0d9b47ba9734a35dc5ab7233eebbcbcc9dfb2ca865c113bc55cb19211c
      case 14 => 0x5863dbf1e3ac9dec22bbab39d3991495add33a6183c78f1ed70b4aa9b3f20667985b3e827bed2b63e2834e4a4bd8a21a6debdf121b8639911733afda2bb3b0e8
      case 15 => 0xf34b37458bb863998993478dbb8deae006fbd6d5ebd3716b7c23a61ddbe6f8123373d23613f9d51649aba2fe23cc5c6fc6c333a67392c7e4bc1b436e43a74e9d
      case 16 => 0x95ac9329ac4bc9b5ef74e3e19c7e40cc601c72b9cc20db471ac40271fc15523e5594765a340a7f3a2f4c0692043ff643a02497ca54616dc8dafce7026454e4b1
      case 17 => 0x3e847f9dc45f37c0445c0f55f46abeb9cb349e0da4342532b1eceec59401ac4bfebc9aee5c1e814f8464ea266c2b08360b0c7b7e3c7593bd71d40bb60c401ac4
      case 18 => 0xe8a46c1224f5a634927c1cda14c02f4d1d148d82449eb4c667ccfd4a74ab3dbf289c8961bcb410bb5244f9a98c8199c2dd2c68f1dcdf0249a7f41839ecea8b30
      case 19 => 0x438c80a64ce158413954f06e7cd4d138b63c61362c8a4ab3cce411fe1cbfc3ca83b465d5d4a0eecef96c151de49567b776048445b4cbfc3c0cdcf48d84fe7545
      case 20 => 0x6fbd6d5ebd3716b715651d968d029fce9a0d8ccedd5c0445e0d5fc06ed698d3caf85882d2576a038d55df8e5154329415a3569bd451db2ca20ed197575283bb3
      case 21 => 0xc49581ead523e8c2be4df122e51661bb3125607ab548fa304bfd10b2857d734904ad64994d625e4d7e7514517d57d734f11d85092d094cbf8bc5f5c11d3cc5c6
      case 22 => 0x12b5926535897936686de2ad05bcf04fe70573f555e26bc49ddd033d65d7e2bdd28d7716adc8cfb9a85507de9dfd46c0273d9686cda3dd4b5de5e64efd965432
      case 23 => 0xb99d7ed15d9d8743c3450e196da80e3a4c2d9f413df695b136f5ef890dc31cc879a59ba2c5dc31cc037deb6af5e9b8b58c157a32a5b7233ef6cd0afa9582aa47
      case 24 => 0x4ad64994d625e4da300e395ce6106da3bf66a804b64ef628c5bed8cc867b7f518aeeace74e645255f036dc2f7e51db2c7f5e4d772e0f40a705863dbf1e3ac9de
      case 25 => 0xe1fea520be311aaf9b26d5e88e0493d6144e44b0de5a085d6e963478ee6f812421c640532670ac205b1e309b16452559d476a1c3461bbed2aeaed10b762e37ab
      case 26 => 0x37deb6af5e9b8b5b4d06c6676eae0222c26e573f3ef099a9b8b627f70ec510d0f7e653dcc6da3dd48d3e2314f6efb4ad0256b24ca6b12f26788ec2849684a65f
      case 27 => 0x9cf65a1b368f752ee62e2ad306bafc576946bb8b56e467dc139ecb4366d1eea55ccebf68aecec3a12616cfa09efb4ad8a97e5ef8cea5d153d3a62e30fe90582a
      case 28 => 0xb0c7b7e3c7593bd8ca1fc72bf76cb2a145775673a732292a3faf26bb9707a05370ff52905f188d570a2722586f2d042e854fb3003f739fa5ff97c3c80f4616dc
      case 29 => 0x1bef5b57af4dc5ad61372b9f9f784cd4ee5fbac7cf26d75f9487ca0fff135e26dbd7be24370c7322a10fceec0739fa5b2e675fb4576761d054bf2f7c6752e8a9
      case 30 => 0xcdcf48d84fe75459b71738107fd2dd20387fa9482f8c46ab42a7d9801fb9cfd20df7adabd7a6e2d6772fdd63e7936baff8474c3bb7cdf024829f3cf387f8795d
      case _ => 0x66e7a46c27f3aa2c1c3fd4a417c62355935745fc4798b8dee98f353477ad31a7a6df411fbfb21ca3dc0731d78f8795da536fa08fdfd90e5129b7d047efec8728
      , x & 7)
  }

  lemma JonesRefl0(x: bv8)
    requires x >> 5 == 0
    ensures JonesReflTable(x) == ReflShifts(0x95ac9329ac4bc9b5, x as bv64)
  {
  }

  lemma JonesRefl1(x: bv8)
    requires x >> 5 == 1
    ensures JonesReflTable(x) == ReflShifts(0x95ac9329ac4bc9b5, x as bv64)
  {
  }

  lemma JonesRefl2(x: bv8)
    requires x >> 5 == 2
    ensures JonesReflTable(x) == ReflShifts(0x95ac9329ac4bc9b5, x as bv64)
  {
  }

  lemma JonesRefl3(x: bv8)
    requires x >> 5 == 3
    ensures JonesReflTable(x) == ReflShifts(0x95ac9329ac4bc9b5, x as bv64)
  {
  }

  lemma JonesRefl4(x: bv8)
    requires x >> 5 == 4
    ensures JonesReflTable(x) == ReflShifts(0x95ac9329ac4bc9b5, x as bv64)
  {
  }

  lemma JonesRefl5(x: bv8)
    requires x >> 5 == 5
    ensures JonesReflTable(x) == ReflShifts(0x95ac9329ac4bc9b5, x as bv64)
  {
  }

  lemma JonesRefl6(x: bv8)
    requires x >> 5 == 6
    ensures JonesReflTable(x) == ReflShifts(0x95ac9329ac4bc9b5, x as bv64)
  {
  }

  lemma JonesRefl7(x: bv8)
    requires x >> 5 == 7
    ensures JonesReflTable(x) == ReflShifts(0x95ac9329ac4bc9b5, x as bv64)
  {
  }

  lemma JonesReflSteps(x: bv8)
    ensures JonesReflTable(x) == ReflShifts(0x95ac9329ac4bc9b5, x as bv64)
  {
    hide JonesReflTable, ReflShifts;
    match x >> 5
    case 0 => JonesRefl0(x);
    case 1 => JonesRefl1(x);
    case 2 => JonesRefl2(x);
    case 3 => JonesRefl3(x);
    case 4 => JonesRefl4(x);
    case 5 => JonesRefl5(x);
    case 6 => JonesRefl6(x);
    case _ => JonesRefl7(x);
  }

  function JonesNormTable(x: bv8): bv64 {
    Column64(match x >> 3
      case 0 => 0x0000000000000000ad93d23594c935a9f6b4765ebd5b5efb5b27a46b29926b5240fb3e88ee7f885fed68ecbd7ab6bdf6b64f48d65324d6a41bdc9ae3c7ede30d
      case 1 => 0x81f67d11dcff10be2c65af244836251777420b4f61a44e45dad1d97af56d7becc10d4399328098e16c9e91aca649ad4837b935c78fdbc61a9a2ae7f21b12f3b3
      case 2 => 0xae7f28162d3714d503ecfa23b9fe217c58cb5e48906c4a2ef5588c7d04a57f87ee84169ec3489c8a4317c4ab5781a923183060c07e13c271b5a3b2f5eadaf7d8
      case 3 => 0x2f895507f1c8046b821a8732650131c2d93d23594c935a9074aef16cd85a6f396f726b8f1fb78c34c2e1b9ba8b7eb99d99c61dd1a2ecd2cf3455cfe43625e766
      case 4 => 0xf16d8219cea71c035cfe502c5a6e29aa07d9f44773fc42f8aa4a2672e7357751b196bc9120d8945c1c056ea4b411a1f54722cacf9d83caa7eab118fa094aff0e
      case 5 => 0x709bff0812580cbddd082d3d86913914862f8956af0352462bbc5b633bca67ef3060c180fc2784e29df313b568eeb14bc6d4b7de417cda196b4765ebd5b5efb0
      case 6 => 0x5f12aa0fe39008d6f281783a77593d7fa9a6dc515ecb562d04350e64ca0263841fe994870def8089b27a46b29926b520e95de2d9b0b4de7244ce30ec247debdb
      case 7 => 0xdee4d71e3f6f18687377052baba62dc12850a1408234469385c3737516fd733a9e1fe996d1109037338c3ba345d9a59e68ab9fc86c4bceccc5384dfdf882fb65
      case 8 => 0x4f48d60609870dafe2db04339d4e3806b9fca058b4dc5354146f726d201566fd0fb3e88ee7f885f0a2203abb7331b059f9079ed05aa3db0b54944ce5ce6aeea2
      case 9 => 0xcebeab17d5781d11632d792241b128b8380add49682343ea95990f7cfcea76438e45959f3b07954e23d647aaafcea0e778f1e3c1865ccbb5d56231f41295fe1c
      case 10 => 0xe137fe1024b0197a4ca42c25b0792cd31783884e99eb4781ba105a7b0d227228a1ccc098cacf91250c5f12ad5e06a48c5778b6c67794cfdefaeb64f3e35dfa77
      case 11 => 0x60c18301f84f09c4cd5251346c863c6d9675f55f4514573f3be6276ad1dd6296203abd891630819b8da96fbc82f9b432d68ecbd7ab6bdf607b1d19e23fa2eac9
      case 12 => 0xbe25541fc72011ac13b6862a53e92405489122417a7b4f57e502f074eeb27afefede6a97295f99f3534db8a2bd96ac5a086a1cc99404c708a5f9cefc00cdf2a1
      case 13 => 0x3fd3290e1bdf01129240fb3b8f1634bbc9675f50a6845fe964f48d65324d6a407f281786f5a0894dd2bbc5b36169bce4899c61d848fbd7b6240fb3eddc32e21f
      case 14 => 0x105a7c09ea170579bdc9ae3c7ede30d0e6ee0a57574c5b824b7dd862c3856e2b50a1428104688d26fd3290b490a1b88fa61534dfb933d3dd0b86e6ea2dfae674
      case 15 => 0x91ac011836e815c73c3fd32da221206e671877468bb34b3cca8ba5731f7a7e95d1573f90d8979d987cc4eda54c5ea83127e349ce65ccc3638a709bfbf105f6ca
      case 16 => 0x9e91ac0c130e1b5e33027e3987c72ef76825da52ae5545a5c5b608673a9c700cde6a9284fd71930173f940b169b8a6a828dee4da402acdfa854d36efd4e3f853
      case 17 => 0x1f67d11dcff10be0b2f403285b383e49e9d3a74372aa551b44407576e66360b25f9cef95218e83bff20f3da0b547b616a92899cb9cd5dd4404bb4bfe081ce8ed
      case 18 => 0x30ee841a3e390f8b9d7d562faaf03a22c65af244836251706bc9207117ab64d97015ba92d04687d4dd8668a7448fb27d86a1cccc6d1dd92f2b321ef9f9d4ec86
      case 19 => 0xb118f90be2c61f351c8b2b3e760f2a9c47ac8f555f9d41ceea3f5d60cb547467f1e3c7830cb9976a5c7015b69870a2c30757b1ddb1e2c991aac463e8252bfc38
      case 20 => 0x6ffc2e15dda9075dc26ffc20496032f49948584b60f259a634db8a7ef43b6c0f2f07109d33d68f028294c2a8a71fbaabd9b366c38e8dd1f97420b4f61a44e450
      case 21 => 0xee0a5304015617e343998131959f224a18be255abc0d4918b52df76f28c47cb1aef16d8cef299fbc0362bfb97be0aa1558451bd25272c147f5d6c9e7c6bbf4ee
      case 22 => 0xc1830603f09e13886c10d436645726213737705d4dc54d739aa4a268d90c78da8178388b1ee19bd72cebeabe8a28ae7e77cc4ed5a3bac52cda5f9ce03773f085
      case 23 => 0x40757b122c610336ede6a927b8a8369fb6c10d4c913a5dcd1b52df7905f36864008e459ac21e8b69ad1d97af56d7bec0f63a33c47f45d5925ba9e1f1eb8ce03b
      case 24 => 0xd1d97a0a1a8916f17c4aa83f8e402358276d0c54a7d2480a8afede61331b7da391224482f4f69eae3cb196b7603fab07679632dc49adc055ca05e0e9dd64f5fc
      case 25 => 0x502f071bc676064ffdbcd52e52bf33e6a69b71457b2d58b40b08a370efe46d1d10d4399328098e10bd47eba6bcc0bbb9e6604fcd9552d0eb4bf39df8019be542
      case 26 => 0x7fa6521c37be0224d2358029a377378d891224428ae55cdf2481f6771e2c69763f5d6c94d9c18a7b92cebea14d08bfd2c9e91aca649ad480647ac8fff053e129
      case 27 => 0xfe502f0deb41129a53c3fd387f88273308e45953561a4c61a5778b66c2d379c8beab1185053e9ac51338c3b091f7af6c481f67dbb865c43ee58cb5ee2cacf197
      case 28 => 0x20b4f813d42e0af28d272a2640e73f5bd6008e4d697554097b935c78fdbc61a0604fc69b3a5182adcddc14aeae98b70496fbb0c5870adc563b6862f013c3e9ff
      case 29 => 0xa142850208d11a4c0cd157379c182fe557f6f35cb58a44b7fa6521692143711ee1b9bb8ae6ae92134c2a69bf7267a7ba170dcdd45bf5cce8ba9e1fe1cf3cf941
      case 30 => 0x8ecbd005f9191e27235802306dd02b8e787fa65b444240dcd5ec746ed08b7575ce30ee8d1766967863a33cb883afa3d1388498d3aa3dc88395174ae63ef4fd2a
      case _ => 0x0f3dad1425e60e99a2ae7f21b12f3b30f989db4a98bd5062541a097f0c7465cb4fc6939ccb9986c6e25541a95f50b36fb972e5c276c2d83d14e137f7e20bed94
      , x & 7)
  }

  lemma JonesNorm0(x: bv8)
    requires x >> 5 == 0
    ensures JonesNormTable(x) == NormShifts(0xad93d23594c935a9, x as bv64 << 56)
  {
  }

  lemma JonesNorm1(x: bv8)
    requires x >> 5 == 1
    ensures JonesNormTable(x) == NormShifts(0xad93d23594c935a9, x as bv64 << 56)
  {
  }

  lemma JonesNorm2(x: bv8)
    requires x >> 5 == 2
    ensures JonesNormTable(x) == NormShifts(0xad93d23594c935a9, x as bv64 << 56)
  {
  }

  lemma JonesNorm3(x: bv8)
    requires x >> 5 == 3
    ensures JonesNormTable(x) == NormShifts(0xad93d23594c935a9, x as bv64 << 56)
  {
  }

  lemma JonesNorm4(x: bv8)
    requires x >> 5 == 4
    ensures JonesNormTable(x) == NormShifts(0xad93d23594c935a9, x as bv64 << 56)
  {
  }

  lemma JonesNorm5(x: bv8)
    requires x >> 5 == 5
    ensures JonesNormTable(x) == NormShifts(0xad93d23594c935a9, x as bv64 << 56)
  {
  }

  lemma JonesNorm6(x: bv8)
    requires x >> 5 == 6
    ensures JonesNormTable(x) == NormShifts(0xad93d23594c935a9, x as bv64 << 56)
  {
  }

  lemma JonesNorm7(x: bv8)
    requires x >> 5 == 7
    ensures JonesNormTable(x) == NormShifts(0xad93d23594c935a9, x as bv64 << 56)
  {
  }

  lemma JonesNormSteps(x: bv8)
    ensures JonesNormTable(x) == NormShifts(0xad93d23594c935a9, x as bv64 << 56)
  {
    hide JonesNormTable, NormShifts;
    match x >> 5
    case 0 => JonesNorm0(x);
    case 1 => JonesNorm1(x);
    case 2 => JonesNorm2(x);
    case 3 => JonesNorm3(x);
    case 4 => JonesNorm4(x);
    case 5 => JonesNorm5(x);
    case 6 => JonesNorm6(x);
    case _ => JonesNorm7(x);
  }

  function GzipReflTable(x: bv8): bv32 {
    Column32(match x >> 3
      case 0 => 0x0000000077073096ee0e612c990951ba076dc419706af48fe963a5359e6495a3
      case 1 => 0x0edb883279dcb8a4e0d5e91e97d2d98809b64c2b7eb17cbde7b82d0790bf1d91
      case 2 => 0x1db710646ab020f2f3b9714884be41de1adad47d6ddde4ebf4d4b55183d385c7
      case 3 => 0x136c9856646ba8c0fd62f97a8a65c9ec14015c4f63066cd9fa0f3d638d080df5
      case 4 => 0x3b6e20c84c69105ed56041e4a26771723c03e4d14b04d447d20d85fda50ab56b
      case 5 => 0x35b5a8fa42b2986cdbbbc9d6acbcf94032d86ce345df5c75dcd60dcfabd13d59
      case 6 => 0x26d930ac51de003ac8d75180bfd0611621b4f4b556b3c423cfba9599b8bda50f
      case 7 => 0x2802b89e5f058808c60cd9b2b10be9242f6f7c8758684c11c1611dabb6662d3d
      case 8 => 0x76dc419001db710698d220bcefd5102a71b1858906b6b51f9fbfe4a5e8b8d433
      case 9 => 0x7807c9a20f00f9349609a88ee10e98187f6a0dbb086d3d2d91646c97e6635c01
      case 10 => 0x6b6b51f41c6c6162856530d8f262004e6c0695ed1b01a57b8208f4c1f50fc457
      case 11 => 0x65b0d9c612b7e9508bbeb8eafcb9887c62dd1ddf15da2d498cd37cf3fbd44c65
      case 12 => 0x4db261583ab551cea3bc0074d4bb30e24adfa5413dd895d7a4d1c46dd3d6f4fb
      case 13 => 0x4369e96a346ed9fcad678846da60b8d044042d7333031de5aa0a4c5fdd0d7cc9
      case 14 => 0x5005713c270241aabe0b1010c90c20865768b525206f85b3b966d409ce61e49f
      case 15 => 0x5edef90e29d9c998b0d09822c7d7a8b459b33d172eb40d81b7bd5c3bc0ba6cad
      case 16 => 0xedb883209abfb3b603b6e20c74b1d29aead547399dd277af04db261573dc1683
      case 17 => 0xe3630b1294643b840d6d6a3e7a6a5aa8e40ecf0b9309ff9d0a00ae277d079eb1
      case 18 => 0xf00f93448708a3d21e01f2686906c2fef762575d806567cb196c36716e6b06e7
      case 19 => 0xfed41b7689d32be010da7a5a67dd4accf9b9df6f8ebeeff917b7be4360b08ed5
      case 20 => 0xd6d6a3e8a1d1937e38d8c2c44fdff252d1bb67f1a6bc57673fb506dd48b2364b
      case 21 => 0xd80d2bdaaf0a1b4c36034af641047a60df60efc3a867df55316e8eef4669be79
      case 22 => 0xcb61b38cbc66831a256fd2a05268e236cc0c7795bb0b4703220216b95505262f
      case 23 => 0xc5ba3bbeb2bd0b282bb45a925cb36a04c2d7ffa7b5d0cf312cd99e8b5bdeae1d
      case 24 => 0x9b64c2b0ec63f226756aa39c026d930a9c0906a9eb0e363f7207678505005713
      case 25 => 0x95bf4a82e2b87a147bb12bae0cb61b3892d28e9be5d5be0d7cdcefb70bdbdf21
      case 26 => 0x86d3d2d4f1d4e24268ddb3f81fda836e81be16cdf6b9265b6fb077e118b74777
      case 27 => 0x88085ae6ff0f6a7066063bca11010b5c8f659efff862ae69616bffd3166ccf45
      case 28 => 0xa00ae278d70dd2ee4e0483543903b3c2a7672661d06016f74969474d3e6e77db
      case 29 => 0xaed16a4ad9d65adc40df0b6637d83bf0a9bcae53debb9ec547b2cf7f30b5ffe9
      case 30 => 0xbdbdf21ccabac28a53b3933024b4a3a6bad03605cdd7069354de572923d967bf
      case _ => 0xb3667a2ec4614ab85d681b022a6f2b94b40bbe37c30c8ea15a05df1b2d02ef8d
      , x & 7)
  }

  lemma GzipRefl0(x: bv8)
    requires x >> 6 == 0
    ensures GzipReflTable(x) as bv64 == ReflShifts(0xedb88320, x as bv64)
  {
  }

  lemma GzipRefl1(x: bv8)
    requires x >> 6 == 1
    ensures GzipReflTable(x) as bv64 == ReflShifts(0xedb88320, x as bv64)
  {
  }

  lemma GzipRefl2(x: bv8)
    requires x >> 6 == 2
    ensures GzipReflTable(x) as bv64 == ReflShifts(0xedb88320, x as bv64)
  {
  }

  lemma GzipRefl3(x: bv8)
    requires x >> 6 == 3
    ensures GzipReflTable(x) as bv64 == ReflShifts(0xedb88320, x as bv64)
  {
  }

  lemma GzipReflSteps(x: bv8)
    ensures GzipReflTable(x) as bv64 == ReflShifts(0xedb88320, x as bv64)
  {
    hide GzipReflTable, ReflShifts;
    match x >> 6
    case 0 => GzipRefl0(x);
    case 1 => GzipRefl1(x);
    case 2 => GzipRefl2(x);
    case _ => GzipRefl3(x);
  }

  function IscsiReflTable(x: bv8): bv32 {
    Column32(match x >> 3
      case 0 => 0x00000000f26b8303e13b70f71350f3f4c79a971f35f1141c26a1e7e8d4ca64eb
      case 1 => 0x8ad958cf78b2dbcc6be228389989ab3b4d43cfd0bf284cd3ac78bf275e133c24
      case 2 => 0x105ec76fe235446cf165b798030e349bd7c4507025afd37336ff2087c494a384
      case 3 => 0x9a879fa068ec1ca37bbcef5789d76c545d1d08bfaf768bbcbc2678484e4dfb4b
      case 4 => 0x20bd8eded2d60dddc186fe2933ed7d2ae72719c1154c9ac2061c6936f477ea35
      case 5 => 0xaa64d611580f55124b5fa6e6b93425e56dfe410e9f95c20d8cc531f97eaeb2fa
      case 6 => 0x30e349b1c288cab2d1d8394623b3ba45f779deae05125dad1642ae59e4292d5a
      case 7 => 0xba3a117e4851927d5b016189a96ae28a7da086618fcb05629c9bf6966ef07595
      case 8 => 0x417b1dbcb3109ebfa0406d4b522bee4886e18aa3748a09a067dafa5495b17957
      case 9 => 0xcba2457339c9c6702a993584d8f2b6870c38d26cfe53516fed03a29b1f682198
      case 10 => 0x5125dad3a34e59d0b01eaa244275292796bf4dcc64d4cecf77843d3b85efbe38
      case 11 => 0xdbfc821c2997011f3ac7f2ebc8ac71e81c661503ee0d9600fd5d65f40f36e6f7
      case 12 => 0x61c6936293ad106180fde39572966096a65c047d5437877e4767748ab50cf789
      case 13 => 0xeb1fcbad197448ae0a24bb5af84f38592c855cb2deeedfb1cdbe2c453fd5af46
      case 14 => 0x7198540d83f3d70e90a324fa62c8a7f9b602c312446940115739b3e5a55230e6
      case 15 => 0xfb410cc2092a8fc11a7a7c35e811ff363cdb9bddceb018dedde0eb2a2f8b6829
      case 16 => 0x82f63b78709db87b63cd4b8f91a6c88c456cac67b7072f64a457dc90563c5f93
      case 17 => 0x082f63b7fa44e0b4e91413401b7f9043cfb5f4a83dde77ab2e8e845fdce5075c
      case 18 => 0x92a8fc1760c37f1473938ce081f80fe355326b08a759e80bb4091bff466298fc
      case 19 => 0x1871a4d8ea1a27dbf94ad42f0b21572cdfeb33c72d80b0c43ed04330ccbbc033
      case 20 => 0xa24bb5a6502036a54370c551b11b465265d122b997baa1ba84ea524e7681d14d
      case 21 => 0x2892ed69daf96e6ac9a99d9e3bc21e9def087a761d63f9750e330a81fc588982
      case 22 => 0xb21572c9407ef1ca532e023ea145813d758fe5d687e466d594b4952166df1622
      case 23 => 0x38cc2a06caa7a905d9f75af12b9cd9f2ff56bd190d3d3e1a1e6dcdeeec064eed
      case 24 => 0xc38d26c431e6a5c722b65633d0ddd5300417b1dbf67c32d8e52cc12c1747422f
      case 25 => 0x49547e0bbb3ffd08a86f0efc5a048dff8ecee9147ca56a176ff599e39d9e1ae0
      case 26 => 0xd3d3e1ab21b862a832e8915cc083125f144976b4e622f5b7f572064307198540
      case 27 => 0x590ab964ab613a67b831c9934a5a4a909e902e7b6cfbad787fab5e8c8dc0dd8f
      case 28 => 0xe330a81a115b2b19020bd8edf0605bee24aa3f05d6c1bc06c5914ff237faccf1
      case 29 => 0x69e9f0d59b8273d688d280227ab90321ae7367ca5c18e4c94f48173dbd23943e
      case 30 => 0xf36e6f750105ec7612551f82e03e9c8134f4f86ac69f7b69d5cf889d27a40b9e
      case _ => 0x79b737ba8bdcb4b9988c474d6ae7c44ebe2da0a54c4623a65f16d052ad7d5351
      , x & 7)
  }

  lemma IscsiRefl0(x: bv8)
    requires x >> 6 == 0
    ensures IscsiReflTable(x) as bv64 == ReflShifts(0x82f63b78, x as bv64)
  {
  }

  lemma IscsiRefl1(x: bv8)
    requires x >> 6 == 1
    ensures IscsiReflTable(x) as bv64 == ReflShifts(0x82f63b78, x as bv64)
  {
  }

  lemma IscsiRefl2(x: bv8)
    requires x >> 6 == 2
    ensures IscsiReflTable(x) as bv64 == ReflShifts(0x82f63b78, x as bv64)
  {
  }

  lemma IscsiRefl3(x: bv8)
    requires x >> 6 == 3
    ensures IscsiReflTable(x) as bv64 == ReflShifts(0x82f63b78, x as bv64)
  {
  }

  lemma IscsiReflSteps(x: bv8)
    ensures IscsiReflTable(x) as bv64 == ReflShifts(0x82f63b78, x as bv64)
  {
    hide IscsiReflTable, ReflShifts;
    match x >> 6
    case 0 => IscsiRefl0(x);
    case 1 => IscsiRefl1(x);
    case 2 => IscsiRefl2(x);
    case _ => IscsiRefl3(x);
  }

  function IeeeNormTable(x: bv8): bv32 {
    Column32(match x >> 3
      case 0 => 0x0000000004c11db709823b6e0d4326d9130476dc17c56b6b1a864db21e475005
      case 1 => 0x2608edb822c9f00f2f8ad6d62b4bcb61350c9b6431cd86d33c8ea00a384fbdbd
      case 2 => 0x4c11db7048d0c6c74593e01e4152fda95f15adac5bd4b01b569796c252568b75
      case 3 => 0x6a1936c86ed82b7f639b0da6675a1011791d40147ddc5da3709f7b7a745e66cd
      case 4 => 0x9823b6e09ce2ab5791a18d8e956090398b27c03c8fe6dd8b82a5fb528664e6e5
      case 5 => 0xbe2b5b58baea46efb7a96036b3687d81ad2f2d84a9ee3033a4ad16eaa06c0b5d
      case 6 => 0xd4326d90d0f37027ddb056fed9714b49c7361b4cc3f706fbceb42022ca753d95
      case 7 => 0xf23a8028f6fb9d9ffbb8bb46ff79a6f1e13ef6f4e5ffeb43e8bccd9aec7dd02d
      case 8 => 0x3486707730476dc03d044b1939c556ae278206ab23431b1c2e003dc52ac12072
      case 9 => 0x128e9dcf164f80781b0ca6a11fcdbb16018aeb13054bf6a40808d07d0cc9cdca
      case 10 => 0x7897ab077c56b6b07115906975d48dde6b93dddb6f52c06c6211e6b566d0fb02
      case 11 => 0x5e9f46bf5a5e5b08571d7dd153dc60664d9b3063495a2dd444190b0d40d816ba
      case 12 => 0xaca5c697a864db20a527fdf9a1e6e04ebfa1b04bbb60adfcb6238b25b2e29692
      case 13 => 0x8aad2b2f8e6c3698832f104187ee0df699a95df39d684044902b669d94ea7b2a
      case 14 => 0xe0b41de7e4750050e9362689edf73b3ef3b06b3bf771768cfa325055fef34de2
      case 15 => 0xc6bcf05fc27dede8cf3ecb31cbffd686d5b88683d1799b34dc3abdedd8fba05a
      case 16 => 0x690ce0ee6dcdfd59608edb80644fc6377a0896327ec98b85738aad5c774bb0eb
      case 17 => 0x4f040d564bc510e14686363842472b8f5c007b8a58c1663d558240e451435d53
      case 18 => 0x251d3b9e21dc26292c9f00f0285e1d4736194d4232d850f53f9b762c3b5a6b9b
      case 19 => 0x0315d62607d4cb910a97ed480e56f0ff1011a0fa14d0bd4d19939b941d528623
      case 20 => 0xf12f560ef5ee4bb9f8ad6d60fc6c70d7e22b20d2e6ea3d65eba91bbcef68060b
      case 21 => 0xd727bbb6d3e6a601dea580d8da649d6fc423cd6ac0e2d0ddcda1f604c960ebb3
      case 22 => 0xbd3e8d7eb9ff90c9b4bcb610b07daba7ae3afba2aafbe615a7b8c0cca379dd7b
      case 23 => 0x9b3660c69ff77d7192b45ba89675461f8832161a8cf30bad81b02d74857130c3
      case 24 => 0x5d8a9099594b8d2e5408abf750c9b6404e8ee6454a4ffbf2470cdd2b43cdc09c
      case 25 => 0x7b827d217f4360967200464f76c15bf868860bfd6c47164a6104309365c52d24
      case 26 => 0x119b4be9155a565e181970871cd86d30029f3d35065e20820b1d065b0fdc1bec
      case 27 => 0x3793a6513352bbe63e119d3f3ad080882497d08d2056cd3a2d15ebe329d4f654
      case 28 => 0xc5a92679c1683bcecc2b1d17c8ea00a0d6ad50a5d26c4d12df2f6bcbdbee767c
      case 29 => 0xe3a1cbc1e760d676ea23f0afeee2ed18f0a5bd1df464a0aaf9278673fde69bc4
      case 30 => 0x89b8fd098d79e0be803ac66784fbdbd09abc8bd59e7d9662933eb0bb97ffad0c
      case _ => 0xafb010b1ab710d06a6322bdfa2f33668bcb4666db8757bdab5365d03b1f740b4
      , x & 7)
  }

  lemma IeeeNorm0(x: bv8)
    requires x >> 6 == 0
    ensures IeeeNormTable(x) as bv64 << 32 == NormShifts(0x4c11db700000000, x as bv64 << 56)
  {
  }

  lemma IeeeNorm1(x: bv8)
    requires x >> 6 == 1
    ensures IeeeNormTable(x) as bv64 << 32 == NormShifts(0x4c11db700000000, x as bv64 << 56)
  {
  }

  lemma IeeeNorm2(x: bv8)
    requires x >> 6 == 2
    ensures IeeeNormTable(x) as bv64 << 32 == NormShifts(0x4c11db700000000, x as bv64 << 56)
  {
  }

  lemma IeeeNorm3(x: bv8)
    requires x >> 6 == 3
    ensures IeeeNormTable(x) as bv64 << 32 == NormShifts(0x4c11db700000000, x as bv64 << 56)
  {
  }

  lemma IeeeNormSteps(x: bv8)
    ensures IeeeNormTable(x) as bv64 << 32 == NormShifts(0x4c11db700000000, x as bv64 << 56)
  {
    hide IeeeNormTable, NormShifts;
    match x >> 6
    case 0 => IeeeNorm0(x);
    case 1 => IeeeNorm1(x);
    case 2 => IeeeNorm2(x);
    case _ => IeeeNorm3(x);
  }

  function T10DifTable(x: bv8): bv16 {
    Column16(match x >> 3
      case 0 => 0x00008bb79cd9176eb20539b22edca56b
      case 1 => 0xefbd640a7364f8d35db8d60fc1614ad6
      case 2 => 0x54cddf7ac81443a3e6c86d7f7a11f1a6
      case 3 => 0xbb7030c727a9ac1e097582c295ac1e1b
      case 4 => 0xa99a222d3543bef41b9f902887460cf1
      case 5 => 0x4627cd90dafe5149f4227f9568fbe34c
      case 6 => 0xfd5776e0618eea394f52c4e5d38b583c
      case 7 => 0x12ea995d8e330584a0ef2b583c36b781
      case 8 => 0xd8835334445acfed6a86e131f65f7de8
      case 9 => 0x373ebc89abe72050853b0e8c19e29255
      case 10 => 0x8c4e07f910979b203e4bb5fca2922925
      case 11 => 0x63f3e844ff2a749dd1f65a414d2fc698
      case 12 => 0x7119faaeedc06677c31c48ab5fc5d472
      case 13 => 0x9ea41513027d89ca2ca1a716b0783bcf
      case 14 => 0x25d4ae63b90d32ba97d11c660b0880bf
      case 15 => 0xca6941de56b0dd07786cf3dbe4b56f02
      case 16 => 0x3ab1b106a6682ddf88b40303146d9fda
      case 17 => 0xd50c5ebb49d5c2626709ecbefbd07067
      case 18 => 0x6e7ce5cbf2a57912dc7957ce40a0cb17
      case 19 => 0x81c10a761d1896af33c4b873af1d24aa
      case 20 => 0x932b189c0ff28445212eaa99bdf73640
      case 21 => 0x7c96f721e04f6bf8ce934524524ad9fd
      case 22 => 0xc7e64c515b3fd08875e3fe54e93a628d
      case 23 => 0x285ba3ecb4823f359a5e11e906878d30
      case 24 => 0xe23269857eebf55c5037db80ccee4759
      case 25 => 0x0d8f863891561ae1bf8a343d2353a8e4
      case 26 => 0xb6ff3d482a26a19104fa8f4d98231394
      case 27 => 0x5942d2f5c59b4e2ceb4760f0779efc29
      case 28 => 0x4ba8c01fd7715cc6f9ad721a6574eec3
      case 29 => 0xa4152fa238ccb37b16109da78ac9017e
      case 30 => 0x1f6594d283bc080bad6026d731b9ba0e
      case _ => 0xf0d87b6f6c01e7b642ddc96ade0455b3
      , x & 7)
  }

  lemma T10Dif0(x: bv8)
    requires x >> 7 == 0
    ensures T10DifTable(x) as bv64 << 48 == NormShifts(0x8bb7000000000000, x as bv64 << 56)
  {
  }

  lemma T10Dif1(x: bv8)
    requires x >> 7 == 1
    ensures T10DifTable(x) as bv64 << 48 == NormShifts(0x8bb7000000000000, x as bv64 << 56)
  {
  }

  lemma T10DifSteps(x: bv8)
    ensures T10DifTable(x) as bv64 << 48 == NormShifts(0x8bb7000000000000, x as bv64 << 56)
  {
    hide T10DifTable, NormShifts;
    match x >> 7
    case 0 => T10Dif0(x);
    case _ => T10Dif1(x);
  }
}
