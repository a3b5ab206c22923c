// The cached powers of the source, and that every one is closest to its power of ten with 64 bits.
module PowerTables {
  import opened Powers
  import opened RealPowers
  import opened Ieee
  import opened NormalizedDoubles
  import opened MachineInts
  import opened DigitGens
  import opened DtoaBounds
  import opened CachedPowers
  import opened LeastDouble
  import opened PowerNeighbours
  import opened PowerDigits

  const FROM_MINUS_348: seq<CachedPower> := [
    CachedPower(0xFA8F_D5A0_081C_0288, -1220, -348),
    CachedPower(0xBAAE_E17F_A23E_BF76, -1193, -340),
    CachedPower(0x8B16_FB20_3055_AC76, -1166, -332),
    CachedPower(0xCF42_894A_5DCE_35EA, -1140, -324)
  ]

  const FROM_MINUS_316: seq<CachedPower> := [
    CachedPower(0x9A6B_B0AA_5565_3B2D, -1113, -316),
    CachedPower(0xE61A_CF03_3D1A_45DF, -1087, -308),
    CachedPower(0xAB70_FE17_C79A_C6CA, -1060, -300),
    CachedPower(0xFF77_B1FC_BEBC_DC4F, -1034, -292),
    CachedPower(0xBE56_91EF_416B_D60C, -1007, -284),
    CachedPower(0x8DD0_1FAD_907F_FC3C, -980, -276),
    CachedPower(0xD351_5C28_3155_9A83, -954, -268),
    CachedPower(0x9D71_AC8F_ADA6_C9B5, -927, -260)
  ]

  const FROM_MINUS_252: seq<CachedPower> := [
    CachedPower(0xEA9C_2277_23EE_8BCB, -901, -252),
    CachedPower(0xAECC_4991_4078_536D, -874, -244),
    CachedPower(0x823C_1279_5DB6_CE57, -847, -236),
    CachedPower(0xC210_9436_4DFB_5637, -821, -228),
    CachedPower(0x9096_EA6F_3848_984F, -794, -220),
    CachedPower(0xD774_85CB_2582_3AC7, -768, -212),
    CachedPower(0xA086_CFCD_97BF_97F4, -741, -204),
    CachedPower(0xEF34_0A98_172A_ACE5, -715, -196)
  ]

  const FROM_MINUS_188: seq<CachedPower> := [
    CachedPower(0xB238_67FB_2A35_B28E, -688, -188),
    CachedPower(0x84C8_D4DF_D2C6_3F3B, -661, -180),
    CachedPower(0xC5DD_4427_1AD3_CDBA, -635, -172),
    CachedPower(0x936B_9FCE_BB25_C996, -608, -164),
    CachedPower(0xDBAC_6C24_7D62_A584, -582, -156),
    CachedPower(0xA3AB_6658_0D5F_DAF6, -555, -148),
    CachedPower(0xF3E2_F893_DEC3_F126, -529, -140),
    CachedPower(0xB5B5_ADA8_AAFF_80B8, -502, -132)
  ]

  const FROM_MINUS_124: seq<CachedPower> := [
    CachedPower(0x8762_5F05_6C7C_4A8B, -475, -124),
    CachedPower(0xC9BC_FF60_34C1_3053, -449, -116),
    CachedPower(0x964E_858C_91BA_2655, -422, -108),
    CachedPower(0xDFF9_7724_7029_7EBD, -396, -100),
    CachedPower(0xA6DF_BD9F_B8E5_B88F, -369, -92),
    CachedPower(0xF8A9_5FCF_8874_7D94, -343, -84),
    CachedPower(0xB944_7093_8FA8_9BCF, -316, -76),
    CachedPower(0x8A08_F0F8_BF0F_156B, -289, -68)
  ]

  const FROM_MINUS_60: seq<CachedPower> := [
    CachedPower(0xCDB0_2555_6531_31B6, -263, -60),
    CachedPower(0x993F_E2C6_D07B_7FAC, -236, -52),
    CachedPower(0xE45C_10C4_2A2B_3B06, -210, -44),
    CachedPower(0xAA24_2499_6973_92D3, -183, -36),
    CachedPower(0xFD87_B5F2_8300_CA0E, -157, -28),
    CachedPower(0xBCE5_0864_9211_1AEB, -130, -20),
    CachedPower(0x8CBC_CC09_6F50_88CC, -103, -12),
    CachedPower(0xD1B7_1758_E219_652C, -77, -4)
  ]

  const FROM_4: seq<CachedPower> := [
    CachedPower(0x9C40_0000_0000_0000, -50, 4),
    CachedPower(0xE8D4_A510_0000_0000, -24, 12),
    CachedPower(0xAD78_EBC5_AC62_0000, 3, 20)
  ]

  const FROM_28: seq<CachedPower> := [
    CachedPower(0x813F_3978_F894_0984, 30, 28),
    CachedPower(0xC097_CE7B_C907_15B3, 56, 36),
    CachedPower(0x8F7E_32CE_7BEA_5C70, 83, 44),
    CachedPower(0xD5D2_38A4_ABE9_8068, 109, 52),
    CachedPower(0x9F4F_2726_179A_2245, 136, 60),
    CachedPower(0xED63_A231_D4C4_FB27, 162, 68),
    CachedPower(0xB0DE_6538_8CC8_ADA8, 189, 76),
    CachedPower(0x83C7_088E_1AAB_65DB, 216, 84)
  ]

  const FROM_92: seq<CachedPower> := [
    CachedPower(0xC45D_1DF9_4271_1D9A, 242, 92),
    CachedPower(0x924D_692C_A61B_E758, 269, 100),
    CachedPower(0xDA01_EE64_1A70_8DEA, 295, 108),
    CachedPower(0xA26D_A399_9AEF_774A, 322, 116),
    CachedPower(0xF209_787B_B47D_6B85, 348, 124),
    CachedPower(0xB454_E4A1_79DD_1877, 375, 132),
    CachedPower(0x865B_8692_5B9B_C5C2, 402, 140),
    CachedPower(0xC835_53C5_C896_5D3D, 428, 148)
  ]

  const FROM_156: seq<CachedPower> := [
    CachedPower(0x952A_B45C_FA97_A0B3, 455, 156),
    CachedPower(0xDE46_9FBD_99A0_5FE3, 481, 164),
    CachedPower(0xA59B_C234_DB39_8C25, 508, 172),
    CachedPower(0xF6C6_9A72_A398_9F5C, 534, 180),
    CachedPower(0xB7DC_BF53_54E9_BECE, 561, 188),
    CachedPower(0x88FC_F317_F222_41E2, 588, 196),
    CachedPower(0xCC20_CE9B_D35C_78A5, 614, 204),
    CachedPower(0x9816_5AF3_7B21_53DF, 641, 212)
  ]

  const FROM_220: seq<CachedPower> := [
    CachedPower(0xE2A0_B5DC_971F_303A, 667, 220),
    CachedPower(0xA8D9_D153_5CE3_B396, 694, 228),
    CachedPower(0xFB9B_7CD9_A4A7_443C, 720, 236),
    CachedPower(0xBB76_4C4C_A7A4_4410, 747, 244),
    CachedPower(0x8BAB_8EEF_B640_9C1A, 774, 252),
    CachedPower(0xD01F_EF10_A657_842C, 800, 260),
    CachedPower(0x9B10_A4E5_E991_3129, 827, 268),
    CachedPower(0xE710_9BFB_A19C_0C9D, 853, 276)
  ]

  const FROM_284: seq<CachedPower> := [
    CachedPower(0xAC28_20D9_623B_F429, 880, 284),
    CachedPower(0x8044_4B5E_7AA7_CF85, 907, 292),
    CachedPower(0xBF21_E440_03AC_DD2D, 933, 300),
    CachedPower(0x8E67_9C2F_5E44_FF8F, 960, 308),
    CachedPower(0xD433_179D_9C8C_B841, 986, 316),
    CachedPower(0x9E19_DB92_B4E3_1BA9, 1013, 324),
    CachedPower(0xEB96_BF6E_BADF_77D9, 1039, 332),
    CachedPower(0xAF87_023B_9BF0_EE6B, 1066, 340)
  ]

  const LOW_POWERS: seq<CachedPower> :=
    FROM_MINUS_348 + FROM_MINUS_316 + FROM_MINUS_252 + FROM_MINUS_188 + FROM_MINUS_124 + FROM_MINUS_60

  const HIGH_POWERS: seq<CachedPower> :=
    FROM_4 + FROM_28 + FROM_92 + FROM_156 + FROM_220 + FROM_284

  /** kCachedPowers. */
  const CACHED_POWERS: seq<CachedPower> := LOW_POWERS + HIGH_POWERS

  // ----- from 10^24 up -----

  lemma UpFrom24()
    ensures Mantissa(56, 2524354896707237777317531407) && NoneUpTo(56) && AreClose(FROM_28, 28, 0, 4)
  {
    hide Mantissa, NoneUpTo, AreClose;
    StartUp();
    NoneClose(FROM_28, 28, 0);
    var a: nat := 4096000000000000000000000000;
    a := FourUp(24, a, 7450580596923828, 9313225746154785, 11641532182693481, 14551915228366851, 2500000000000000000000000000);
    OneMoreClose(FROM_28, 28, 0, 0, 0, a);
    a := FourUp(28, a, 4547473508864641, 5684341886080801, 7105427357601001, 8881784197001252, 3051757812500000000000000000);
    a := FourUp(32, a, 5551115123125782, 6938893903907228, 8673617379884035, 10842021724855044, 3725290298461914062500000000);
    OneMoreClose(FROM_28, 28, 0, 1, 1, a);
    a := FourUp(36, a, 6776263578034402, 8470329472543003, 10587911840678754, 13234889800848442, 4547473508864641189575195312);
    a := FourUp(40, a, 8271806125530276, 10339757656912845, 12924697071141057, 16155871338926321, 2775557561562891351059079169);
    OneMoreClose(FROM_28, 28, 0, 2, 2, a);
    a := FourUp(44, a, 5048709793414475, 6310887241768094, 7888609052210118, 9860761315262647, 3388131789017201356273290001);
    a := FourUp(48, a, 6162975822039154, 7703719777548943, 9629649721936179, 12037062152420224, 4135903062765138374357043458);
    OneMoreClose(FROM_28, 28, 0, 3, 3, a);
    a := FourUp(52, a, 7523163845262640, 9403954806578300, 11754943508222875, 14693679385278593, 2524354896707237777317531407);
  }

  lemma UpFrom56()
    ensures Mantissa(88, 3111507638930570853572032021) && NoneUpTo(88) && AreClose(FROM_28, 28, 0, 8)
  {
    hide Mantissa, NoneUpTo, AreClose;
    UpFrom24();
    var a: nat := 2524354896707237777317531407;
    a := FourUp(56, a, 4591774807899560, 5739718509874450, 7174648137343063, 8968310171678829, 3081487911019577364889564705);
    OneMoreClose(FROM_28, 28, 0, 4, 4, a);
    a := FourUp(60, a, 5605193857299268, 7006492321624085, 8758115402030106, 10947644252537633, 3761581922631320025499956915);
    a := FourUp(64, a, 6842277657836020, 8552847072295026, 10691058840368782, 13363823550460978, 4591774807899560578002877093);
    OneMoreClose(FROM_28, 28, 0, 5, 5, a);
    a := FourUp(68, a, 8352389719038111, 10440487148797639, 13050608935997049, 16313261169996311, 2802596928649634141847459163);
    a := FourUp(72, a, 5097894115623847, 6372367644529809, 7965459555662261, 9956824444577826, 3421138828918010427059886673);
    OneMoreClose(FROM_28, 28, 0, 6, 6, a);
    a := FourUp(76, a, 6223015277861141, 7778769097326427, 9723461371658033, 12154326714572542, 4176194859519055697094588223);
    a := FourUp(80, a, 7596454196607838, 9495567745759798, 11869459682199748, 14836824602749685, 2548947057811923643246208632);
    OneMoreClose(FROM_28, 28, 0, 7, 7, a);
    a := FourUp(84, a, 4636507688359276, 5795634610449095, 7244543263061369, 9055679078826712, 3111507638930570853572032021);
  }

  lemma UpFrom88()
    ensures Mantissa(120, 3835229269763848869606071828) && NoneUpTo(120) && AreClose(FROM_92, 92, 0, 4)
  {
    hide Mantissa, NoneUpTo, AreClose;
    UpFrom56();
    NoneClose(FROM_92, 92, 0);
    var a: nat := 3111507638930570853572032021;
    a := FourUp(88, a, 5659799424266695, 7074749280333369, 8843436600416711, 11054295750520889, 3798227098303919498989296900);
    OneMoreClose(FROM_92, 92, 0, 0, 0, a);
    a := FourUp(92, a, 6908934844075555, 8636168555094444, 10795210693868055, 13494013367335069, 4636507688359276732164669067);
    a := FourUp(96, a, 8433758354584418, 10542197943230523, 13177747429038154, 16472184286297692, 2829899712133347614846599772);
    OneMoreClose(FROM_92, 92, 0, 1, 1, a);
    a := FourUp(100, a, 5147557589468028, 6434446986835036, 8043058733543795, 10053823416929743, 3454467422037777850154540737);
    a := FourUp(104, a, 6283639635581089, 7854549544476362, 9818186930595453, 12272733663244316, 4216879177292209289739429610);
    OneMoreClose(FROM_92, 92, 0, 2, 2, a);
    a := FourUp(108, a, 7670458539527697, 9588073174409622, 11985091468012027, 14981364335015034, 2573778794734014459069476080);
    a := FourUp(112, a, 4681676354692198, 5852095443365247, 7315119304206559, 9143899130258199, 3141819817790544993981294042);
    OneMoreClose(FROM_92, 92, 0, 3, 3, a);
    a := FourUp(116, a, 5714936956411374, 7143671195514218, 8929588994392773, 11161986242990966, 3835229269763848869606071828);
  }

  lemma UpFrom120()
    ensures Mantissa(152, 4727285052306296719748572530) && NoneUpTo(152) && AreClose(FROM_92, 92, 0, 8)
  {
    hide Mantissa, NoneUpTo, AreClose;
    UpFrom88();
    var a: nat := 3835229269763848869606071828;
    a := FourUp(120, a, 6976241401869354, 8720301752336692, 10900377190420865, 13625471488026082, 4681676354692198327155849399);
    OneMoreClose(FROM_92, 92, 0, 4, 4, a);
    a := FourUp(124, a, 8515919680016301, 10644899600020376, 13306124500025470, 16632655625031838, 2857468478205687455539458861);
    a := FourUp(128, a, 5197704882822449, 6497131103528062, 8121413879410077, 10151767349262596, 3488120700934677069750315992);
    OneMoreClose(FROM_92, 92, 0, 5, 5, a);
    a := FourUp(132, a, 6344854593289123, 7931068241611403, 9913835302014254, 12392294127517818, 4257959840008150719910053701);
    a := FourUp(136, a, 7745183829698636, 9681479787123295, 12101849733904119, 15127312167380149, 2598852441411224804632601135);
    OneMoreClose(FROM_92, 92, 0, 6, 6, a);
    a := FourUp(140, a, 4727285052306296, 5909106315382870, 7386382894228588, 9232978617785735, 3172427296644561529092530682);
    a := FourUp(144, a, 5770611636116084, 7213264545145106, 9016580681431382, 11270725851789228, 3872591914849318272818030617);
    OneMoreClose(FROM_92, 92, 0, 7, 7, a);
    a := FourUp(148, a, 7044203657368267, 8805254571710334, 11006568214637918, 13758210268297397, 4727285052306296719748572530);
  }

  lemma UpFrom152()
    ensures Mantissa(184, 2913414348125080759098033311) && NoneUpTo(184) && AreClose(FROM_156, 156, 0, 4)
  {
    hide Mantissa, NoneUpTo, AreClose;
    UpFrom120();
    NoneClose(FROM_156, 156, 0);
    var a: nat := 4727285052306296719748572530;
    a := FourUp(152, a, 8598881417685873, 10748601772107342, 13435752215134177, 16794690268917721, 2885305818058042431487165850);
    OneMoreClose(FROM_156, 156, 0, 0, 0, a);
    a := FourUp(156, a, 5248340709036788, 6560425886295985, 8200532357869981, 10250665447337476, 3522101828684133827498981750);
    a := FourUp(160, a, 6406665904585922, 8008332380732403, 10010415475915504, 12513019344894380, 4299440708842936801146217956);
    OneMoreClose(FROM_156, 156, 0, 1, 1, a);
    a := FourUp(164, a, 7820637090558987, 9775796363198734, 12219745453998418, 15274681817498023, 2624170354518394043668345920);
    a := FourUp(168, a, 4773338067968132, 5966672584960165, 7458340731200206, 9322925914000258, 3203332952292961479087336328);
    OneMoreClose(FROM_156, 156, 0, 2, 2, a);
    a := FourUp(172, a, 5826828696250161, 7283535870312701, 9104419837890877, 11380524797363596, 3910318545279493993026533603);
    a := FourUp(176, a, 7112827998352247, 8891034997940309, 11113793747425387, 13892242184281734, 4773338067968132315706217777);
    OneMoreClose(FROM_156, 156, 0, 3, 3, a);
    a := FourUp(180, a, 8682651365176083, 10853314206470104, 13566642758087631, 16958303447609538, 2913414348125080759098033311);
  }

  lemma UpFrom184()
    ensures Mantissa(216, 3591060437415367540330812365) && NoneUpTo(216) && AreClose(FROM_156, 156, 0, 8)
  {
    hide Mantissa, NoneUpTo, AreClose;
    UpFrom152();
    var a: nat := 2913414348125080759098033311;
    a := FourUp(184, a, 5299469827377980, 6624337284222476, 8280421605278095, 10350527006597618, 3556413999176123973508341444);
    OneMoreClose(FROM_156, 156, 0, 4, 4, a);
    a := FourUp(188, a, 6469079379123511, 8086349223904389, 10107936529880487, 12634920662350609, 4341325682588041959849049614);
    a := FourUp(192, a, 7896825413969130, 9871031767461413, 12338789709326766, 15423487136658458, 2649734913688990454009429696);
    OneMoreClose(FROM_156, 156, 0, 5, 5, a);
    a := FourUp(196, a, 4819839730205768, 6024799662757210, 7530999578446512, 9413749473058141, 3234539689561755925304479609);
    a := FourUp(200, a, 5883593420661338, 7354491775826672, 9193114719783340, 11491393399729176, 3948412706984565338506444835);
    OneMoreClose(FROM_156, 156, 0, 6, 6, a);
    a := FourUp(204, a, 7182120874830735, 8977651093538418, 11222063866923023, 14027579833653779, 4819839730205768235481500042);
    a := FourUp(208, a, 8767237396033612, 10959046745042015, 13698808431302518, 17123510539128148, 2941796710330669089039001490);
    OneMoreClose(FROM_156, 156, 0, 7, 7, a);
    a := FourUp(212, a, 5351097043477546, 6688871304346933, 8361089130433666, 10451361413042082, 3591060437415367540330812365);
  }

  lemma UpFrom216()
    ensures Mantissa(248, 4426323730254452264669985491) && NoneUpTo(248) && AreClose(FROM_220, 220, 0, 4)
  {
    hide Mantissa, NoneUpTo, AreClose;
    UpFrom184();
    NoneClose(FROM_220, 220, 0);
    var a: nat := 3591060437415367540330812365;
    a := FourUp(216, a, 6532100883151301, 8165126103939127, 10206407629923909, 12758009537404886, 4383618698016806079505386187);
    OneMoreClose(FROM_220, 220, 0, 0, 0, a);
    a := FourUp(220, a, 7973755960878054, 9967194951097567, 12458993688871959, 15573742111089949, 2675548521738773241885611686);
    a := FourUp(224, a, 4866794409715609, 6083493012144511, 7604366265180639, 9505457831475799, 3266050441575650930036147077);
    OneMoreClose(FROM_220, 220, 0, 1, 1, a);
    a := FourUp(228, a, 5940911144672374, 7426138930840468, 9282673663550585, 11603342079438231, 3986877980439027014204281099);
    a := FourUp(232, a, 7252088799648894, 9065110999561118, 11331388749451397, 14164235936814247, 4866794409715609148198585325);
    OneMoreClose(FROM_220, 220, 0, 2, 2, a);
    a := FourUp(236, a, 8852647460508904, 11065809325636130, 13832261657045163, 17290327071306454, 2970455572336187224242300613);
    a := FourUp(240, a, 5403227209783266, 6754034012229083, 8442542515286354, 10553178144107943, 3626044399824447295217652115);
    OneMoreClose(FROM_220, 220, 0, 3, 3, a);
    a := FourUp(244, a, 6595736340067464, 8244670425084330, 10305838031355413, 12882297539194266, 4426323730254452264669985491);
  }

  lemma UpFrom248()
    ensures Mantissa(280, 2727932613007635072458732656) && NoneUpTo(280) && AreClose(FROM_220, 220, 0, 8)
  {
    hide Mantissa, NoneUpTo, AreClose;
    UpFrom216();
    var a: nat := 4426323730254452264669985491;
    a := FourUp(248, a, 8051435961996416, 10064294952495520, 12580368690619400, 15725460863274251, 2701613604891633462322989191);
    OneMoreClose(FROM_220, 220, 0, 4, 4, a);
    a := FourUp(252, a, 4914206519773203, 6142758149716504, 7678447687145630, 9598059608932038, 3297868170033732253812242664);
    a := FourUp(256, a, 5998787255582523, 7498484069478154, 9373105086847693, 11716381358559616, 4025717980998208317641897783);
    OneMoreClose(FROM_220, 220, 0, 5, 5, a);
    a := FourUp(260, a, 7322738349099760, 9153422936374700, 11441778670468375, 14302223338085469, 4914206519773203512746457254);
    a := FourUp(264, a, 8938889586303418, 11173611982879273, 13967014978599091, 17458768723248864, 2999393627791261909635288851);
    OneMoreClose(FROM_220, 220, 0, 6, 6, a);
    a := FourUp(268, a, 5455865226015270, 6819831532519087, 8524789415648859, 10655986769561074, 3661369174549880260785264710);
    a := FourUp(272, a, 6659991730975671, 8324989663719589, 10406237079649486, 13007796349561858, 4469444793151709302716387585);
    OneMoreClose(FROM_220, 220, 0, 7, 7, a);
    a := FourUp(276, a, 8129872718476161, 10162340898095201, 12702926122619002, 15878657653273753, 2727932613007635072458732656);
  }

  lemma UpFrom280()
    ensures Mantissa(312, 3362436547623629823456075159) && NoneUpTo(312) && AreClose(FROM_284, 284, 0, 4)
  {
    hide Mantissa, NoneUpTo, AreClose;
    UpFrom248();
    NoneClose(FROM_284, 284, 0);
    var a: nat := 2727932613007635072458732656;
    a := FourUp(280, a, 4962080516648047, 6202600645810059, 7753250807262574, 9691563509078218, 3329995865487835781809976386);
    OneMoreClose(FROM_284, 284, 0, 0, 0, a);
    a := FourUp(284, a, 6057227193173886, 7571533991467358, 9464417489334197, 11830521861667747, 4064936359238080788342256330);
    a := FourUp(288, a, 7394076163542341, 9242595204427927, 11553244005534909, 14441555006918636, 2481040258324023918665927935);
    OneMoreClose(FROM_284, 284, 0, 1, 1, a);
    a := FourUp(292, a, 4512985939662073, 5641232424577592, 7051540530721990, 8814425663402488, 3028613596586943260090244061);
    a := FourUp(296, a, 5509016039626555, 6886270049533193, 8607837561916492, 10759796952395615, 3697038081771170971789848707);
    OneMoreClose(FROM_284, 284, 0, 2, 2, a);
    a := FourUp(300, a, 6724873095247259, 8406091369059074, 10507614211323843, 13134517764154803, 4512985939662073940173155159);
    a := FourUp(304, a, 8209073602596752, 10261342003245940, 12826677504057425, 16033346880071782, 2754508019813277551375216771);
    OneMoreClose(FROM_284, 284, 0, 3, 3, a);
    a := FourUp(308, a, 5010420900022431, 6263026125028039, 7828782656285049, 9785978320356312, 3362436547623629823456075159);
  }

  lemma UpFrom312()
    ensures Mantissa(344, 4144523029229047490451918338) && NoneUpTo(344) && AreClose(FROM_284, 284, 0, 8)
  {
    hide Mantissa, NoneUpTo, AreClose;
    UpFrom280();
    var a: nat := 3362436547623629823456075159;
    a := FourUp(312, a, 6116236450222695, 7645295562778369, 9556619453472961, 11945774316841201, 4104536801298376249336029246);
    OneMoreClose(FROM_284, 284, 0, 4, 4, a);
    a := FourUp(316, a, 7466108948025751, 9332636185032188, 11665795231290235, 14582244039112794, 2505210450011215972495135037);
    a := FourUp(320, a, 4556951262222748, 5696189077778435, 7120236347223044, 8900295434028805, 3058118225111347622674725386);
    OneMoreClose(FROM_284, 284, 0, 5, 5, a);
    a := FourUp(324, a, 5562684646268003, 6953355807835004, 8691694759793755, 10864618449742194, 3733054474012875515960358137);
    a := FourUp(328, a, 6790386531088871, 8487983163861089, 10609978954826361, 13262473693532951, 4556951262222748432568796553);
    OneMoreClose(FROM_284, 284, 0, 6, 6, a);
    a := FourUp(332, a, 8289046058458094, 10361307573072618, 12951634466340773, 16189543082925966, 2781342323134001728862790864);
    a := FourUp(336, a, 5059232213414364, 6324040266767955, 7905050333459944, 9881312916824930, 3395193265544435704178211503);
    OneMoreClose(FROM_284, 284, 0, 7, 7, a);
    a := FourUp(340, a, 6175820573015581, 7719775716269477, 9649719645336846, 12062149556671058, 4144523029229047490451918338);
  }

  // ----- from 1 down -----

  lemma DownTo32()
    ensures Mantissa(-32, 4017345110647475688854905226) && NoneDownTo(-32) && AreClose(FROM_MINUS_60, -60, 4, 8)
  {
    hide Mantissa, NoneDownTo, AreClose;
    StartDown();
    NoneClose(FROM_MINUS_60, -60, 8);
    var a: nat := 2475880078570760549798248448;
    a := FourDown(-4, a, 7378697629483820, 9223372036854775, 11529215046068469, 14411518807585587, 4056481920730334084789450257);
    OneMoreClose(FROM_MINUS_60, -60, 8, 8, 7, a);
    a := FourDown(-8, a, 6044629098073145, 7555786372591432, 9444732965739290, 11805916207174113, 3323069989462289682259517650);
    a := FourDown(-12, a, 4951760157141521, 6189700196426901, 7737125245533626, 9671406556917033, 2722258935367507707706996858);
    OneMoreClose(FROM_MINUS_60, -60, 7, 8, 6, a);
    a := FourDown(-16, a, 8112963841460668, 10141204801825835, 12676506002282294, 15845632502852867, 4460149039706124628307143652);
    a := FourDown(-20, a, 6646139978924579, 8307674973655724, 10384593717069655, 12980742146337069, 3653754093327257295509212079);
    OneMoreClose(FROM_MINUS_60, -60, 6, 8, 5, a);
    a := FourDown(-24, a, 5444517870735015, 6805647338418769, 8507059173023461, 10633823966279326, 2993155353253689176481146535);
    a := FourDown(-28, a, 8920298079412249, 11150372599265311, 13937965749081639, 17422457186352049, 4903985730770844346746710482);
    OneMoreClose(FROM_MINUS_60, -60, 5, 8, 4, a);
    a := FourDown(-32, a, 7307508186654514, 9134385233318143, 11417981541647679, 14272476927059598, 4017345110647475688854905226);
  }

  lemma DownTo64()
    ensures Mantissa(-64, 3259257562135177738029513093) && NoneDownTo(-64) && AreClose(FROM_MINUS_60, -60, 0, 8)
  {
    hide Mantissa, NoneDownTo, AreClose;
    DownTo32();
    var a: nat := 4017345110647475688854905226;
    a := FourDown(-36, a, 5986310706507378, 7482888383134222, 9353610478917778, 11692013098647223, 3291009114642412084309938361);
    OneMoreClose(FROM_MINUS_60, -60, 4, 8, 3, a);
    a := FourDown(-40, a, 4903985730770844, 6129982163463555, 7662477704329444, 9578097130411805, 2695994666715063979466701505);
    a := FourDown(-44, a, 8034690221294951, 10043362776618689, 12554203470773361, 15692754338466701, 4417117661945960823958243745);
    OneMoreClose(FROM_MINUS_60, -60, 3, 8, 2, a);
    a := FourDown(-48, a, 6582018229284824, 8227522786606030, 10284403483257537, 12855504354071922, 3618502788666131106986593275);
    a := FourDown(-52, a, 5391989333430127, 6739986666787659, 8424983333484574, 10531229166855718, 2964277484475294602843417210);
    OneMoreClose(FROM_MINUS_60, -60, 2, 8, 1, a);
    a := FourDown(-56, a, 8834235323891921, 11042794154864902, 13803492693581127, 17254365866976409, 4856672230564322677298654756);
    a := FourDown(-60, a, 7237005577332262, 9046256971665327, 11307821214581659, 14134776518227074, 3978585891278293137243057976);
    OneMoreClose(FROM_MINUS_60, -60, 1, 8, 0, a);
    a := FourDown(-64, a, 5928554968950589, 7410693711188236, 9263367138985295, 11579208923731619, 3259257562135177738029513093);
  }

  lemma DownTo96()
    ensures Mantissa(-96, 2644223875160994395807661223) && NoneDownTo(-96) && AreClose(FROM_MINUS_124, -124, 4, 8)
  {
    hide Mantissa, NoneDownTo, AreClose;
    DownTo64();
    NoneClose(FROM_MINUS_124, -124, 8);
    var a: nat := 3259257562135177738029513093;
    a := FourDown(-68, a, 4856672230564322, 6070840288205403, 7588550360256754, 9485687950320942, 2669983794901137602993777125);
    OneMoreClose(FROM_MINUS_124, -124, 8, 8, 7, a);
    a := FourDown(-72, a, 7957171782556586, 9946464728195732, 12433080910244666, 15541351137805832, 4374501449566023848745004441);
    a := FourDown(-76, a, 6518515124270355, 8148143905337944, 10185179881672430, 12731474852090538, 3583591587484486736891907638);
    OneMoreClose(FROM_MINUS_124, -124, 7, 8, 6, a);
    a := FourDown(-80, a, 5339967589802275, 6674959487252844, 8343699359066055, 10429624198832568, 2935678228467291534861850737);
    a := FourDown(-84, a, 8749002899132047, 10936253623915059, 13670317029893824, 17087896287367280, 4809815209520810450717656247);
    OneMoreClose(FROM_MINUS_124, -124, 6, 8, 5, a);
    a := FourDown(-88, a, 7167183174968973, 8958978968711216, 11198723710889021, 13998404638611276, 3940200619639447921227903997);
    a := FourDown(-92, a, 5871356456934583, 7339195571168228, 9173994463960286, 11467493079950357, 3227812347608635737069898954);
    OneMoreClose(FROM_MINUS_124, -124, 5, 8, 4, a);
    a := FourDown(-96, a, 4809815209520810, 6012269011901013, 7515336264876266, 9394170331095332, 2644223875160994395807661223);
  }

  lemma DownTo128()
    ensures Mantissa(-128, 4290498537581631071863687980) && NoneDownTo(-128) && AreClose(FROM_MINUS_124, -124, 0, 8)
  {
    hide Mantissa, NoneDownTo, AreClose;
    DownTo96();
    var a: nat := 2644223875160994395807661223;
    a := FourDown(-100, a, 7880401239278895, 9850501549098619, 12313126936373274, 15391408670466593, 4332296397063773218091272147);
    OneMoreClose(FROM_MINUS_124, -124, 4, 8, 3, a);
    a := FourDown(-104, a, 6455624695217271, 8069530869021589, 10086913586276986, 12608641982846233, 3549017208474643020260370142);
    a := FourDown(-108, a, 5288447750321988, 6610559687902485, 8263199609878107, 10328999512347634, 2907354897182427562197295220);
    OneMoreClose(FROM_MINUS_124, -124, 3, 8, 2, a);
    a := FourDown(-112, a, 8664592794127546, 10830740992659433, 13538426240824291, 16923032801030364, 4763410263543689317904048488);
    a := FourDown(-116, a, 7098034416949286, 8872543021186607, 11090678776483259, 13863348470604074, 3902185687894990289226996521);
    OneMoreClose(FROM_MINUS_124, -124, 2, 8, 1, a);
    a := FourDown(-120, a, 5814709794364855, 7268387242956068, 9085484053695086, 11356855067118857, 3196670515523576044934755550);
    a := FourDown(-124, a, 4763410263543689, 5954262829429611, 7442828536787014, 9303535670983768, 2618712486316913496010551746);
    OneMoreClose(FROM_MINUS_124, -124, 1, 8, 0, a);
    a := FourDown(-128, a, 7804371375789980, 9755464219737475, 12194330274671844, 15242912843339805, 4290498537581631071863687980);
  }

  lemma DownTo160()
    ensures Mantissa(-160, 3480865949723964857972085250) && NoneDownTo(-160) && AreClose(FROM_MINUS_188, -188, 4, 8)
  {
    hide Mantissa, NoneDownTo, AreClose;
    DownTo128();
    NoneClose(FROM_MINUS_188, -188, 8);
    var a: nat := 4290498537581631071863687980;
    a := FourDown(-132, a, 6393341031047152, 7991676288808940, 9989595361011175, 12486994201263968, 3514776401986872174070733193);
    OneMoreClose(FROM_MINUS_188, -188, 8, 8, 7, a);
    a := FourDown(-136, a, 5237424972633826, 6546781215792283, 8183476519740354, 10229345649675443, 2879304828507645684998744631);
    a := FourDown(-140, a, 8580997075163262, 10726246343954077, 13407807929942597, 16759759912428246, 4717453031026926690301943203);
    OneMoreClose(FROM_MINUS_188, -188, 7, 8, 6, a);
    a := FourDown(-144, a, 7029552803973744, 8786941004967180, 10983676256208975, 13729595320261219, 3864537523017258344695351871);
    a := FourDown(-148, a, 5758609657015291, 7198262071269114, 8997827589086392, 11247284486357990, 3165829138855738035974432252);
    OneMoreClose(FROM_MINUS_188, -188, 6, 8, 5, a);
    a := FourDown(-152, a, 4717453031026926, 5896816288783658, 7371020360979572, 9213775451224466, 2593447230550620599070254900);
    a := FourDown(-156, a, 7729075046034516, 9661343807543145, 12076679759428932, 15095849699286165, 4249103942534136789516705628);
    OneMoreClose(FROM_MINUS_188, -188, 5, 8, 4, a);
    a := FourDown(-160, a, 6331658277711476, 7914572847139345, 9893216058924181, 12366520073655226, 3480865949723964857972085250);
  }

  lemma DownTo192()
    ensures Mantissa(-192, 2824013958708217496949108822) && NoneDownTo(-192) && AreClose(FROM_MINUS_188, -188, 0, 8)
  {
    hide Mantissa, NoneDownTo, AreClose;
    DownTo160();
    var a: nat := 3480865949723964857972085250;
    a := FourDown(-164, a, 5186894461101241, 6483618076376551, 8104522595470689, 10130653244338361, 2851525386013872011650732236);
    OneMoreClose(FROM_MINUS_188, -188, 4, 8, 3, a);
    a := FourDown(-168, a, 8498207885068273, 10622759856335341, 13278449820419177, 16598062275523971, 4671939192445127903888559695);
    a := FourDown(-172, a, 6961731899447929, 8702164874309912, 10877706092887390, 13597132616109237, 3827252586451048778865508102);
    OneMoreClose(FROM_MINUS_188, -188, 3, 8, 2, a);
    a := FourDown(-176, a, 5703050772027744, 7128813465034680, 8911016831293350, 11138771039116687, 3135285318820699159646624237);
    a := FourDown(-180, a, 4671939192445127, 5839923990556409, 7299904988195512, 9124881235244390, 2568425733177916751582514574);
    OneMoreClose(FROM_MINUS_188, -188, 2, 8, 1, a);
    a := FourDown(-184, a, 7654505172902097, 9568131466127621, 11960164332659527, 14950205415824409, 4208108721238698805792791878);
    a := FourDown(-188, a, 6270570637641398, 7838213297051747, 9797766621314684, 12247208276643356, 3447282664438742061705455106);
    OneMoreClose(FROM_MINUS_188, -188, 1, 8, 0, a);
    a := FourDown(-192, a, 5136851466355833, 6421064332944791, 8026330416180989, 10032913020226237, 2824013958708217496949108822);
  }

  lemma DownTo224()
    ensures Mantissa(-224, 4582224626955993792707005390) && NoneDownTo(-224) && AreClose(FROM_MINUS_252, -252, 4, 8)
  {
    hide Mantissa, NoneDownTo, AreClose;
    DownTo192();
    NoneClose(FROM_MINUS_252, -252, 8);
    var a: nat := 2824013958708217496949108822;
    a := FourDown(-196, a, 8416217442477397, 10520271803096747, 13150339753870933, 16437924692338667, 4626864469947543547001419893);
    OneMoreClose(FROM_MINUS_252, -252, 8, 8, 7, a);
    a := FourDown(-200, a, 6894565328877484, 8618206661096855, 10772758326371068, 13465947907963836, 3790327373781027673703563176);
    a := FourDown(-204, a, 5648027917416434, 7060034896770543, 8825043620963179, 11031304526203974, 3105036184601417870297958953);
    OneMoreClose(FROM_MINUS_252, -252, 7, 8, 6, a);
    a := FourDown(-208, a, 4626864469947543, 5783580587434429, 7229475734293036, 9036844667866295, 2543645642425481519348087974);
    a := FourDown(-212, a, 7580654747562055, 9475818434452569, 11844773043065711, 14805966303832139, 4167509020549908921299907336);
    OneMoreClose(FROM_MINUS_252, -252, 6, 8, 5, a);
    a := FourDown(-216, a, 6210072369202835, 7762590461503544, 9703238076879430, 12129047596099288, 3414023389634485388328884089);
    a := FourDown(-220, a, 5087291284850963, 6359114106063703, 7948892632579629, 9936115790724537, 2796767960788570430119021845);
    OneMoreClose(FROM_MINUS_252, -252, 5, 8, 4, a);
    a := FourDown(-224, a, 8335018041099817, 10418772551374772, 13023465689218465, 16279332111523081, 4582224626955993792707005390);
  }

  lemma DownTo256()
    ensures Mantissa(-256, 3717542271194457656995156209) && NoneDownTo(-256) && AreClose(FROM_MINUS_252, -252, 0, 8)
  {
    hide Mantissa, NoneDownTo, AreClose;
    DownTo224();
    var a: nat := 4582224626955993792707005390;
    a := FourDown(-228, a, 6828046779268970, 8535058474086213, 10668823092607766, 13336028865759708, 3753758414402350114985578815);
    OneMoreClose(FROM_MINUS_252, -252, 4, 8, 3, a);
    a := FourDown(-232, a, 5593535921577140, 6991919901971426, 8739899877464282, 10924874846830353, 3075078893078405214196186165);
    a := FourDown(-236, a, 4582224626955993, 5727780783694992, 7159725979618740, 8949657474523425, 2519104629209829551469515706);
    OneMoreClose(FROM_MINUS_252, -252, 3, 8, 2, a);
    a := FourDown(-240, a, 7507516828804700, 9384396036005875, 11730495045007344, 14663118806259180, 4127301024497384737127654532);
    a := FourDown(-244, a, 6150157786156810, 7687697232696013, 9609621540870016, 12012026926087520, 3381084999268257576654974592);
    OneMoreClose(FROM_MINUS_252, -252, 2, 8, 1, a);
    a := FourDown(-248, a, 5038209258419659, 6297761573024573, 7872201966280717, 9840252457850896, 2769784831400556606795755185);
    a := FourDown(-252, a, 8254602048994769, 10318252561243461, 12897815701554327, 16122269626942909, 4538015467766671944574165295);
    OneMoreClose(FROM_MINUS_252, -252, 1, 8, 0, a);
    a := FourDown(-256, a, 6762169998536515, 8452712498170643, 10565890622713304, 13207363278391631, 3717542271194457656995156209);
  }

  lemma DownTo288()
    ensures Mantissa(-288, 3016028602530220424421062238) && NoneDownTo(-288) && AreClose(FROM_MINUS_316, -316, 4, 8)
  {
    hide Mantissa, NoneDownTo, AreClose;
    DownTo256();
    NoneClose(FROM_MINUS_316, -316, 8);
    var a: nat := 3717542271194457656995156209;
    a := FourDown(-260, a, 5539569662801113, 6924462078501391, 8655577598126739, 10819471997658424, 3045410628562499712610431966);
    OneMoreClose(FROM_MINUS_316, -316, 8, 8, 7, a);
    a := FourDown(-264, a, 4538015467766671, 5672519334708339, 7090649168385424, 8863311460481781, 2494800386918399764570465866);
    a := FourDown(-268, a, 7435084542388915, 9293855677986144, 11617319597482680, 14521649496853350, 4087480953927106174272251274);
    OneMoreClose(FROM_MINUS_316, -316, 7, 8, 6, a);
    a := FourDown(-272, a, 6090821257124999, 7613526571406249, 9516908214257811, 11896135267822264, 3348464397457085377963828243);
    a := FourDown(-276, a, 4989600773836799, 6237000967295999, 7796251209119999, 9745314011399999, 2743062034396844341627968096);
    OneMoreClose(FROM_MINUS_316, -316, 6, 8, 5, a);
    a := FourDown(-280, a, 8174961907854212, 10218702384817765, 12773377981022206, 15966722476277758, 4494232837155789769323262928);
    a := FourDown(-284, a, 6696928794914170, 8371160993642713, 10463951242053391, 13079939052566739, 3681675540198022979029616990);
    OneMoreClose(FROM_MINUS_316, -316, 5, 8, 4, a);
    a := FourDown(-288, a, 5486124068793688, 6857655085992110, 8572068857490138, 10715086071862673, 3016028602530220424421062238);
  }

  lemma DownTo320()
    ensures Mantissa(-320, 4893786199427765557762591437) && NoneDownTo(-320) && AreClose(FROM_MINUS_316, -316, 0, 8)
  {
    hide Mantissa, NoneDownTo, AreClose;
    DownTo288();
    var a: nat := 3016028602530220424421062238;
    a := FourDown(-292, a, 8988465674311579, 11235582092889474, 14044477616111843, 17555597020139803, 4941461262385513143371468370);
    OneMoreClose(FROM_MINUS_316, -316, 4, 8, 3, a);
    a := FourDown(-296, a, 7363351080396045, 9204188850495057, 11505236063118821, 14381545078898527, 4048045066146212367049906888);
    a := FourDown(-300, a, 6032057205060440, 7540071506325551, 9425089382906938, 11781361728633673, 3316158518186977171087283722);
    OneMoreClose(FROM_MINUS_316, -316, 3, 8, 2, a);
    a := FourDown(-304, a, 4941461262385513, 6176826577981891, 7721033222477364, 9651291528096705, 2716597058098771698554702825);
    a := FourDown(-308, a, 8096090132292424, 10120112665365530, 12650140831706913, 15812676039633642, 4450872619989027550912025108);
    OneMoreClose(FROM_MINUS_316, -316, 2, 8, 1, a);
    a := FourDown(-312, a, 6632317036373954, 8290396295467442, 10362995369334303, 12953744211667879, 3646154850295011369707130968);
    a := FourDown(-316, a, 5433194116197543, 6791492645246929, 8489365806558661, 10611707258198326, 2986930053361673314064081688);
    OneMoreClose(FROM_MINUS_316, -316, 1, 8, 0, a);
    a := FourDown(-320, a, 8901745239978055, 11127181549972568, 13908976937465711, 17386221171832138, 4893786199427765557762591437);
  }

  lemma DownTo348()
    ensures Mantissa(-348, 4846571103979087938519772230) && NoneDownTo(-348) && AreClose(FROM_MINUS_348, -348, 0, 4)
  {
    hide Mantissa, NoneDownTo, AreClose;
    DownTo320();
    NoneClose(FROM_MINUS_348, -348, 4);
    var a: nat := 4893786199427765557762591437;
    a := FourDown(-324, a, 7292309700590022, 9115387125737528, 11394233907171910, 14242792383964888, 4008989654571225544919114905);
    OneMoreClose(FROM_MINUS_348, -348, 4, 4, 3, a);
    a := FourDown(-328, a, 5973860106723346, 7467325133404183, 9334156416755229, 11667695520944036, 3284164325024747966397738930);
    a := FourDown(-332, a, 4893786199427765, 6117232749284706, 7646540936605883, 9558176170757354, 2690387415060273534073027731);
    OneMoreClose(FROM_MINUS_348, -348, 3, 4, 2, a);
    a := FourDown(-336, a, 8017979309142451, 10022474136428063, 12528092670535079, 15660115838168849, 4407930740834752158225248634);
    a := FourDown(-340, a, 6568328650049495, 8210410812561869, 10263013515702337, 12828766894627921, 3610976862891828968018123680);
    OneMoreClose(FROM_MINUS_348, -348, 2, 4, 1, a);
    a := FourDown(-344, a, 5380774830120547, 6725968537650683, 8407460672063354, 10509325840079193, 2958112246080986290600446918);
    a := FourDown(-348, a, 8815861481669504, 11019826852086880, 13774783565108600, 17218479456385750, 4846571103979087938519772230);
    OneMoreClose(FROM_MINUS_348, -348, 1, 4, 0, a);
  }

  lemma NoneClose(part: seq<CachedPower>, m: int, i: int)
    ensures AreClose(part, m, i, i)
  {
  }

  /** No double is almost a power of ten it does not reach. */
  lemma NoneAlmostPower(d: uint64, m: int)
    requires 0 < d < INFINITY
    ensures !AlmostPower(Value(d), m)
  {
    hide Ten, Two, Scaled, Significand, Exponent, Mantissa, AlmostPower, AreClose;
    ValueRange(d);
    if m >= 309 {
      FarAboveDoubles(m, Value(d));
    } else if m <= -325 {
      FarBelowDoubles(m, Value(d));
    } else {
      if m < 0 {
        DownTo348();
      } else if m >= 24 {
        UpFrom312();
      } else {
        NoneAtSmallPower(m);
      }
      assert NoneAlmostAt(m);
      assert Value(d) == Scaled(Significand(d), Exponent(d));
    }
  }

  // ----- the whole table -----

  /** The powers that fit 64 bits are exact. */
  lemma SmallEntries()
    ensures AreClose(FROM_4, 4, 0, 3)
  {
    hide Pow, Ten, Two, Scaled, WithinHalfUnit;
    SmallFives();
    ExactEntry(4, 625, 0x9C40_0000_0000_0000, 54);
    ExactEntry(12, 244140625, 0xE8D4_A510_0000_0000, 36);
    ExactEntry(20, 95367431640625, 0xAD78_EBC5_AC62_0000, 17);
  }

  lemma SmallFives()
    ensures Pow(5, 4) == 625 && Pow(5, 12) == 244140625 && Pow(5, 20) == 95367431640625
    ensures Pow(2, 54) == 0x40_0000_0000_0000 && Pow(2, 36) == 0x10_0000_0000 && Pow(2, 17) == 0x2_0000
  {
    hide Pow;
    FiveTo4();
    PowAdd(5, 4, 4);
    PowAdd(5, 8, 4);
    PowAdd(5, 12, 8);
    SmallPowersOfTwo();
    PowAdd(2, 10, 7);
    PowAdd(2, 9, 9);
    PowAdd(2, 18, 18);
    PowAdd(2, 36, 18);
  }

  lemma FiveTo4()
    ensures Pow(5, 4) == 625
  {
  }

  lemma ExactEntry(m: nat, five: nat, c: nat, n: nat)
    requires five == Pow(5, m) && c == five * Pow(2, n) && 0x8000_0000_0000_0000 <= c < 0x1_0000_0000_0000_0000
    ensures WithinHalfUnit(c, m - n, m)
  {
    hide Pow, Ten, Two, Scaled;
    FivesExact(m);
    ScaledShift(five, n, m);
  }

  lemma Joined(s: seq<CachedPower>, t: seq<CachedPower>, m: int)
    requires AreClose(s, m, 0, |s|) && AreClose(t, m + 8 * |s|, 0, |t|)
    ensures AreClose(s + t, m, 0, |s + t|)
  {
    hide WithinHalfUnit;
  }

  lemma LowPart()
    ensures |LOW_POWERS| == 44 && AreClose(LOW_POWERS, -348, 0, 44)
  {
    hide AreClose, Mantissa, NoneDownTo;
    DownTo64();
    DownTo128();
    DownTo192();
    DownTo256();
    DownTo320();
    DownTo348();
    Joined(FROM_MINUS_348, FROM_MINUS_316, -348);
    Joined(FROM_MINUS_348 + FROM_MINUS_316, FROM_MINUS_252, -348);
    Joined(FROM_MINUS_348 + FROM_MINUS_316 + FROM_MINUS_252, FROM_MINUS_188, -348);
    Joined(FROM_MINUS_348 + FROM_MINUS_316 + FROM_MINUS_252 + FROM_MINUS_188, FROM_MINUS_124, -348);
    Joined(FROM_MINUS_348 + FROM_MINUS_316 + FROM_MINUS_252 + FROM_MINUS_188 + FROM_MINUS_124, FROM_MINUS_60, -348);
  }

  lemma HighPart()
    ensures |HIGH_POWERS| == 43 && AreClose(HIGH_POWERS, 4, 0, 43)
  {
    hide AreClose, Mantissa, NoneUpTo;
    SmallEntries();
    UpFrom56();
    UpFrom120();
    UpFrom184();
    UpFrom248();
    UpFrom312();
    Joined(FROM_4, FROM_28, 4);
    Joined(FROM_4 + FROM_28, FROM_92, 4);
    Joined(FROM_4 + FROM_28 + FROM_92, FROM_156, 4);
    Joined(FROM_4 + FROM_28 + FROM_92 + FROM_156, FROM_220, 4);
    Joined(FROM_4 + FROM_28 + FROM_92 + FROM_156 + FROM_220, FROM_284, 4);
  }

  /** The source's own table is what the conversions ask of their table. */
  lemma TableIsRight()
    ensures IsPowerTable(CACHED_POWERS) && StartsAtLeastPower(CACHED_POWERS)
  {
    hide AreClose, WithinHalfUnit, Mantissa, NoneUpTo, NoneDownTo;
    LowPart();
    HighPart();
    Joined(LOW_POWERS, HIGH_POWERS, -348);
    CloseIsTable();
  }

  lemma CloseIsTable()
    requires AreClose(CACHED_POWERS, -348, 0, 87) && |CACHED_POWERS| == 87
    ensures IsPowerTable(CACHED_POWERS) && StartsAtLeastPower(CACHED_POWERS)
  {
    hide WithinHalfUnit;
    assert CACHED_POWERS[0] == FROM_MINUS_348[0];
  }
}
