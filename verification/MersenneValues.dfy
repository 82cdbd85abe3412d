/**
 The numbers themselves: draws of a generator seeded with 5489, the default, computed word by word from
 the seeding loop.  They tie every constant of the generator to its published values.
 */
module MersenneValues {
  import opened MersenneTwister

  /** One round of the seeding loop from seed 5489. */
  lemma Next(i: nat, previous: bv32, word: bv32)
    requires 1 <= i < N && SeedWord(5489, i - 1) == previous && SeedStep(previous, i) == word
    ensures SeedWord(5489, i) == word
  {
  }

  lemma WordsTo20()
    ensures SeedWord(5489, 0) == 0x00001571 && SeedWord(5489, 1) == 0x4d98ee96
    ensures SeedWord(5489, 2) == 0xaf25f095 && SeedWord(5489, 3) == 0xafd9ba96
    ensures SeedWord(5489, 4) == 0x6fcbd068 && SeedWord(5489, 5) == 0x2cd06a72
    ensures SeedWord(5489, 6) == 0x384f0100 && SeedWord(5489, 7) == 0x85b46507
    ensures SeedWord(5489, 8) == 0x295e8801 && SeedWord(5489, 9) == 0x0d1b316e
    ensures SeedWord(5489, 10) == 0x7b305e70
    ensures SeedWord(5489, 20) == 0xb1c27391
  {
    assert SeedWord(5489, 0) == 5489;
    hide SeedWord;
    Next(1, 0x00001571, 0x4d98ee96); Next(2, 0x4d98ee96, 0xaf25f095); Next(3, 0xaf25f095, 0xafd9ba96);
    Next(4, 0xafd9ba96, 0x6fcbd068); Next(5, 0x6fcbd068, 0x2cd06a72); Next(6, 0x2cd06a72, 0x384f0100);
    Next(7, 0x384f0100, 0x85b46507); Next(8, 0x85b46507, 0x295e8801); Next(9, 0x295e8801, 0x0d1b316e);
    Next(10, 0x0d1b316e, 0x7b305e70); Next(11, 0x7b305e70, 0xbdb6bba0); Next(12, 0xbdb6bba0, 0x1cefb8f6);
    Next(13, 0x1cefb8f6, 0x8b499f1b); Next(14, 0x8b499f1b, 0x3fdf25eb); Next(15, 0x3fdf25eb, 0xcbc1b8c6);
    Next(16, 0xcbc1b8c6, 0x38b252c9); Next(17, 0x38b252c9, 0xdc273a5e); Next(18, 0xdc273a5e, 0xae40cbc3);
    Next(19, 0xae40cbc3, 0x6ae1ac38); Next(20, 0x6ae1ac38, 0xb1c27391);
  }

  lemma WordsTo40()
    ensures SeedWord(5489, 40) == 0x5f9086c7
  {
    WordsTo20();
    hide SeedWord;
    Next(21, 0xb1c27391, 0x5e964414); Next(22, 0x5e964414, 0x744b195f); Next(23, 0x744b195f, 0x6bc6502d);
    Next(24, 0x6bc6502d, 0x67592d74); Next(25, 0x67592d74, 0x19b58c42); Next(26, 0x19b58c42, 0xfa7da824);
    Next(27, 0xfa7da824, 0x1fa1367e); Next(28, 0x1fa1367e, 0x6635edd2); Next(29, 0x6635edd2, 0xb451bf5c);
    Next(30, 0xb451bf5c, 0xc73bce34); Next(31, 0xc73bce34, 0x7374cad2); Next(32, 0x7374cad2, 0x9d63f05f);
    Next(33, 0x9d63f05f, 0x629a99d2); Next(34, 0x629a99d2, 0xdc159b61); Next(35, 0xdc159b61, 0xfc5bbfcd);
    Next(36, 0xfc5bbfcd, 0xd079ea6a); Next(37, 0xd079ea6a, 0x336aac92); Next(38, 0x336aac92, 0xaf6e37c0);
    Next(39, 0xaf6e37c0, 0x90a0d1b1); Next(40, 0x90a0d1b1, 0x5f9086c7);
  }

  lemma WordsTo60()
    ensures SeedWord(5489, 60) == 0x4fd212fc
  {
    WordsTo40();
    hide SeedWord;
    Next(41, 0x5f9086c7, 0x438f2247); Next(42, 0x438f2247, 0xb8b9fbc8); Next(43, 0xb8b9fbc8, 0x83a570dd);
    Next(44, 0x83a570dd, 0xa3c5df27); Next(45, 0xa3c5df27, 0x377ed6c6); Next(46, 0x377ed6c6, 0x2d64b24c);
    Next(47, 0x2d64b24c, 0xbc39042b); Next(48, 0xbc39042b, 0x2ed7955d); Next(49, 0x2ed7955d, 0x2b87b2e2);
    Next(50, 0x2b87b2e2, 0x0772855c); Next(51, 0x0772855c, 0xaf10d97f); Next(52, 0xaf10d97f, 0xc474b385);
    Next(53, 0xc474b385, 0x66c78a13); Next(54, 0x66c78a13, 0xb41b1b50); Next(55, 0xb41b1b50, 0xe78ea991);
    Next(56, 0xe78ea991, 0xef0608d2); Next(57, 0xef0608d2, 0xf1d053ae); Next(58, 0xf1d053ae, 0x29b3987b);
    Next(59, 0x29b3987b, 0x9fd1fbc2); Next(60, 0x9fd1fbc2, 0x4fd212fc);
  }

  lemma WordsTo80()
    ensures SeedWord(5489, 80) == 0x253d5ba7
  {
    WordsTo60();
    hide SeedWord;
    Next(61, 0x4fd212fc, 0x2af5e30e); Next(62, 0x2af5e30e, 0xa6e712c4); Next(63, 0xa6e712c4, 0x8da05e5d);
    Next(64, 0x8da05e5d, 0x5b5f12bb); Next(65, 0x5b5f12bb, 0xe89deda3); Next(66, 0xe89deda3, 0x49d96062);
    Next(67, 0x49d96062, 0xde0d0252); Next(68, 0xde0d0252, 0xcd964339); Next(69, 0xcd964339, 0xd4d89027);
    Next(70, 0xd4d89027, 0xff90227a); Next(71, 0xff90227a, 0xf39f5b04); Next(72, 0xf39f5b04, 0xd6c6a90b);
    Next(73, 0xd6c6a90b, 0x0c0df871); Next(74, 0x0c0df871, 0xb28e7ddf); Next(75, 0xb28e7ddf, 0x609ded7c);
    Next(76, 0x609ded7c, 0xdcd1979d); Next(77, 0xdcd1979d, 0x16265fa3); Next(78, 0x16265fa3, 0xa7c6f69d);
    Next(79, 0xa7c6f69d, 0x7dd3640a); Next(80, 0x7dd3640a, 0x253d5ba7);
  }

  lemma WordsTo100()
    ensures SeedWord(5489, 100) == 0x6d5f3ea9
  {
    WordsTo80();
    hide SeedWord;
    Next(81, 0x253d5ba7, 0x7cd28834); Next(82, 0x7cd28834, 0xff671a3b); Next(83, 0xff671a3b, 0x483d506b);
    Next(84, 0x483d506b, 0x3b1f7426); Next(85, 0x3b1f7426, 0x5d9b2953); Next(86, 0x5d9b2953, 0xb0922fb0);
    Next(87, 0xb0922fb0, 0x4b111391); Next(88, 0x4b111391, 0x0a24c828); Next(89, 0x0a24c828, 0x08b86021);
    Next(90, 0x08b86021, 0xa916965f); Next(91, 0xa916965f, 0x24ec180c); Next(92, 0x24ec180c, 0xa257e918);
    Next(93, 0xa257e918, 0x7023e19f); Next(94, 0x7023e19f, 0x453791b4); Next(95, 0x453791b4, 0x63d959c8);
    Next(96, 0x63d959c8, 0xf64bfdad); Next(97, 0xf64bfdad, 0x2e7f3407); Next(98, 0x2e7f3407, 0xcb384625);
    Next(99, 0xcb384625, 0x3dc80361); Next(100, 0x3dc80361, 0x6d5f3ea9);
  }

  lemma WordsTo120()
    ensures SeedWord(5489, 120) == 0x952ce170
  {
    WordsTo100();
    hide SeedWord;
    Next(101, 0x6d5f3ea9, 0xb5b3a0ad); Next(102, 0xb5b3a0ad, 0x09a50c71); Next(103, 0x09a50c71, 0x24dd61fc);
    Next(104, 0x24dd61fc, 0x02ab84d4); Next(105, 0x02ab84d4, 0xe98cdc0d); Next(106, 0xe98cdc0d, 0x72b84ff0);
    Next(107, 0x72b84ff0, 0xc1168380); Next(108, 0xc1168380, 0x16d7fe1b); Next(109, 0x16d7fe1b, 0xf0f0b414);
    Next(110, 0xf0f0b414, 0x7ff85c81); Next(111, 0x7ff85c81, 0xedfcfeef); Next(112, 0xedfcfeef, 0xd1b0df8c);
    Next(113, 0xd1b0df8c, 0xd354badc); Next(114, 0xd354badc, 0xe888116d); Next(115, 0xe888116d, 0x7104bed9);
    Next(116, 0x7104bed9, 0x78e8e3ac); Next(117, 0x78e8e3ac, 0x8b7468b6); Next(118, 0x8b7468b6, 0x1de1a37a);
    Next(119, 0x1de1a37a, 0x7ad7c999); Next(120, 0x7ad7c999, 0x952ce170);
  }

  lemma WordsTo140()
    ensures SeedWord(5489, 140) == 0x4c9c9621
  {
    WordsTo120();
    hide SeedWord;
    Next(121, 0x952ce170, 0x2178f473); Next(122, 0x2178f473, 0x22aefcd9); Next(123, 0x22aefcd9, 0xca48e318);
    Next(124, 0xca48e318, 0x6a080d23); Next(125, 0x6a080d23, 0xd82260e7); Next(126, 0xd82260e7, 0x81a63e72);
    Next(127, 0x81a63e72, 0x131092af); Next(128, 0x131092af, 0x3ad2868b); Next(129, 0x3ad2868b, 0x30dc7858);
    Next(130, 0x30dc7858, 0xadca933a); Next(131, 0xadca933a, 0xa03d0d9b); Next(132, 0xa03d0d9b, 0xcf8c3ee1);
    Next(133, 0xcf8c3ee1, 0x0029c1af); Next(134, 0x0029c1af, 0x88e91191); Next(135, 0x88e91191, 0x3d609a86);
    Next(136, 0x3d609a86, 0xab78ad66); Next(137, 0xab78ad66, 0x2922ecfd); Next(138, 0x2922ecfd, 0x2285e55b);
    Next(139, 0x2285e55b, 0xf00e3072); Next(140, 0xf00e3072, 0x4c9c9621);
  }

  lemma WordsTo160()
    ensures SeedWord(5489, 160) == 0xebc4df9a
  {
    WordsTo140();
    hide SeedWord;
    Next(141, 0x4c9c9621, 0xa0fe5b2d); Next(142, 0xa0fe5b2d, 0xf56f2119); Next(143, 0xf56f2119, 0x2d44f9d1);
    Next(144, 0x2d44f9d1, 0xc69e6905); Next(145, 0xc69e6905, 0x89dda5ef); Next(146, 0x89dda5ef, 0x87b94c13);
    Next(147, 0x87b94c13, 0xf6471c48); Next(148, 0xf6471c48, 0xa23f4d2b); Next(149, 0xa23f4d2b, 0x4b6362c2);
    Next(150, 0x4b6362c2, 0xe5655285); Next(151, 0xe5655285, 0x83cd4575); Next(152, 0x83cd4575, 0xf46a178b);
    Next(153, 0xf46a178b, 0x392b1141); Next(154, 0x392b1141, 0x7f00983f); Next(155, 0x7f00983f, 0xbe673f11);
    Next(156, 0xbe673f11, 0x1d020e1b); Next(157, 0x1d020e1b, 0x52190444); Next(158, 0x52190444, 0x010a9cd7);
    Next(159, 0x010a9cd7, 0x14fff072); Next(160, 0x14fff072, 0xebc4df9a);
  }

  lemma WordsTo180()
    ensures SeedWord(5489, 180) == 0x83238235
  {
    WordsTo160();
    hide SeedWord;
    Next(161, 0xebc4df9a, 0x098418fe); Next(162, 0x098418fe, 0x496fcad8); Next(163, 0x496fcad8, 0xe4982940);
    Next(164, 0xe4982940, 0x02f22313); Next(165, 0x02f22313, 0xb7d20224); Next(166, 0xb7d20224, 0x000b2fa4);
    Next(167, 0x000b2fa4, 0x7e64905b); Next(168, 0x7e64905b, 0x99631e2a); Next(169, 0x99631e2a, 0x42564e71);
    Next(170, 0x42564e71, 0xc116e2da); Next(171, 0xc116e2da, 0x2d5ca148); Next(172, 0x2d5ca148, 0x40d32a14);
    Next(173, 0x40d32a14, 0x9767d7f6); Next(174, 0x9767d7f6, 0x2635c7f2); Next(175, 0x2635c7f2, 0x6ad66529);
    Next(176, 0x6ad66529, 0x86d05178); Next(177, 0x86d05178, 0x5e206fd3); Next(178, 0x5e206fd3, 0x2561808c);
    Next(179, 0x2561808c, 0x8116a3ef); Next(180, 0x8116a3ef, 0x83238235);
  }

  lemma WordsTo200()
    ensures SeedWord(5489, 200) == 0x075ca540
  {
    WordsTo180();
    hide SeedWord;
    Next(181, 0x83238235, 0x8132cf68); Next(182, 0x8132cf68, 0x8df18f88); Next(183, 0x8df18f88, 0x6ae47c29);
    Next(184, 0x6ae47c29, 0xb7ae6480); Next(185, 0xb7ae6480, 0x63253a03); Next(186, 0x63253a03, 0x77c8f584);
    Next(187, 0x77c8f584, 0xa0500b34); Next(188, 0xa0500b34, 0x2c0e530a); Next(189, 0x2c0e530a, 0x895d1daf);
    Next(190, 0x895d1daf, 0xd2594aff); Next(191, 0xd2594aff, 0x233f722b); Next(192, 0x233f722b, 0x1f4e0eb7);
    Next(193, 0x1f4e0eb7, 0xbaacbdf4); Next(194, 0xbaacbdf4, 0x118998d0); Next(195, 0x118998d0, 0x7bc09ad3);
    Next(196, 0x7bc09ad3, 0xb995779e); Next(197, 0xb995779e, 0x4a3ead51); Next(198, 0x4a3ead51, 0x52aa3156);
    Next(199, 0x52aa3156, 0xbeee071a); Next(200, 0xbeee071a, 0x075ca540);
  }

  lemma WordsTo220()
    ensures SeedWord(5489, 220) == 0xe730b398
  {
    WordsTo200();
    hide SeedWord;
    Next(201, 0x075ca540, 0x00bc7309); Next(202, 0x00bc7309, 0x15283457); Next(203, 0x15283457, 0xff40361e);
    Next(204, 0xff40361e, 0xc815df3d); Next(205, 0xc815df3d, 0xe7cb4243); Next(206, 0xe7cb4243, 0x0965640e);
    Next(207, 0x0965640e, 0x9bedf855); Next(208, 0x9bedf855, 0x5d2a8a23); Next(209, 0x5d2a8a23, 0xa4a2b23b);
    Next(210, 0xa4a2b23b, 0xf11fd24f); Next(211, 0xf11fd24f, 0xf92ca4cf); Next(212, 0xf92ca4cf, 0xc4623150);
    Next(213, 0xc4623150, 0x6467e194); Next(214, 0x6467e194, 0x3bc7bd9f); Next(215, 0x3bc7bd9f, 0xbda0e792);
    Next(216, 0xbda0e792, 0x01576ca8); Next(217, 0x01576ca8, 0x293bc721); Next(218, 0x293bc721, 0xa00d39df);
    Next(219, 0xa00d39df, 0x0a3a1a0c); Next(220, 0x0a3a1a0c, 0xe730b398);
  }

  lemma WordsTo240()
    ensures SeedWord(5489, 240) == 0x640a6776
    ensures SeedWord(5489, 227) == 0x9a49043d
    ensures SeedWord(5489, 228) == 0xa3cd64bf
  {
    WordsTo220();
    hide SeedWord;
    Next(221, 0xe730b398, 0x9391d004); Next(222, 0x9391d004, 0x7904493c); Next(223, 0x7904493c, 0xc68d8af0);
    Next(224, 0xc68d8af0, 0x65d8ddbf); Next(225, 0x65d8ddbf, 0x756c2ad7); Next(226, 0x756c2ad7, 0xaa736d50);
    Next(227, 0xaa736d50, 0x9a49043d); Next(228, 0x9a49043d, 0xa3cd64bf); Next(229, 0xa3cd64bf, 0x081ce476);
    Next(230, 0x081ce476, 0xb0e34974); Next(231, 0xb0e34974, 0x36362275); Next(232, 0x36362275, 0xa8ff3611);
    Next(233, 0xa8ff3611, 0xbf258168); Next(234, 0xbf258168, 0xbdf3c9bc); Next(235, 0xbdf3c9bc, 0x145746e1);
    Next(236, 0x145746e1, 0x978460b1); Next(237, 0x978460b1, 0xc7def28c); Next(238, 0xc7def28c, 0x20ad3a59);
    Next(239, 0x20ad3a59, 0xbd00a70c); Next(240, 0xbd00a70c, 0x640a6776);
  }

  lemma WordsTo260()
    ensures SeedWord(5489, 260) == 0xb5b7e721
  {
    WordsTo240();
    hide SeedWord;
    Next(241, 0x640a6776, 0x11ba81e4); Next(242, 0x11ba81e4, 0x8b5443e6); Next(243, 0x8b5443e6, 0x1bcfcde7);
    Next(244, 0x1bcfcde7, 0x437ddc17); Next(245, 0x437ddc17, 0x48099ba3); Next(246, 0x48099ba3, 0x298219e0);
    Next(247, 0x298219e0, 0x354d1657); Next(248, 0x354d1657, 0x98bf604b); Next(249, 0x98bf604b, 0x1c070ec6);
    Next(250, 0x1c070ec6, 0xc51acb18); Next(251, 0xc51acb18, 0x0c0095a2); Next(252, 0x0c0095a2, 0x7bbcbbe6);
    Next(253, 0x7bbcbbe6, 0x6955c220); Next(254, 0x6955c220, 0xaea04103); Next(255, 0xaea04103, 0xdb0a2f64);
    Next(256, 0xdb0a2f64, 0x9e33d3a3); Next(257, 0x9e33d3a3, 0xdc1aa886); Next(258, 0xdc1aa886, 0xd256aa7b);
    Next(259, 0xd256aa7b, 0xa6b37a5b); Next(260, 0xa6b37a5b, 0xb5b7e721);
  }

  lemma WordsTo280()
    ensures SeedWord(5489, 280) == 0xb92a6b58
  {
    WordsTo260();
    hide SeedWord;
    Next(261, 0xb5b7e721, 0x3234ecd4); Next(262, 0x3234ecd4, 0x0b6ae4aa); Next(263, 0x0b6ae4aa, 0xae313219);
    Next(264, 0xae313219, 0xcff638af); Next(265, 0xcff638af, 0xed2c68e5); Next(266, 0xed2c68e5, 0x3cf279c8);
    Next(267, 0x3cf279c8, 0x834e14f3); Next(268, 0x834e14f3, 0xd59a3d21); Next(269, 0xd59a3d21, 0xd47f5177);
    Next(270, 0xd47f5177, 0x22fe37d2); Next(271, 0x22fe37d2, 0xf8e968e9); Next(272, 0xf8e968e9, 0xb3a19f62);
    Next(273, 0xb3a19f62, 0x38ae41f1); Next(274, 0x38ae41f1, 0x17a0fe27); Next(275, 0x17a0fe27, 0xe1982576);
    Next(276, 0xe1982576, 0xcf45653d); Next(277, 0xcf45653d, 0xd641208b); Next(278, 0xd641208b, 0xa5d29ebe);
    Next(279, 0xa5d29ebe, 0xca2f3d43); Next(280, 0xca2f3d43, 0xb92a6b58);
  }

  lemma WordsTo300()
    ensures SeedWord(5489, 300) == 0x193ff56c
  {
    WordsTo280();
    hide SeedWord;
    Next(281, 0xb92a6b58, 0xa8a5859b); Next(282, 0xa8a5859b, 0x50fb9777); Next(283, 0x50fb9777, 0x838ae8a9);
    Next(284, 0x838ae8a9, 0xbcfe4f93); Next(285, 0xbcfe4f93, 0x01e0fe52); Next(286, 0x01e0fe52, 0xb21c3978);
    Next(287, 0xb21c3978, 0x6a3af841); Next(288, 0x6a3af841, 0x41de3260); Next(289, 0x41de3260, 0x3246ca66);
    Next(290, 0x3246ca66, 0x49087160); Next(291, 0x49087160, 0x5aa8a568); Next(292, 0x5aa8a568, 0xd6ed7491);
    Next(293, 0xd6ed7491, 0xa70f20bf); Next(294, 0xa70f20bf, 0xa2a810b7); Next(295, 0xa2a810b7, 0xee327590);
    Next(296, 0xee327590, 0x35d90f27); Next(297, 0x35d90f27, 0x45cfda8c); Next(298, 0x45cfda8c, 0x3cd1afcb);
    Next(299, 0x3cd1afcb, 0xa85aff42); Next(300, 0xa85aff42, 0x193ff56c);
  }

  lemma WordsTo320()
    ensures SeedWord(5489, 320) == 0xb09a94ce
  {
    WordsTo300();
    hide SeedWord;
    Next(301, 0x193ff56c, 0x7686a0c9); Next(302, 0x7686a0c9, 0x94a07816); Next(303, 0x94a07816, 0x3c1e1513);
    Next(304, 0x3c1e1513, 0x68aa7caf); Next(305, 0x68aa7caf, 0x58be4fd7); Next(306, 0x58be4fd7, 0x52a906a0);
    Next(307, 0x52a906a0, 0x2ba2c7b8); Next(308, 0x2ba2c7b8, 0x6a2244cc); Next(309, 0x6a2244cc, 0x93f1db16);
    Next(310, 0x93f1db16, 0x3a35241a); Next(311, 0x3a35241a, 0x5bff2979); Next(312, 0x5bff2979, 0x9b249590);
    Next(313, 0x9b249590, 0x787825d3); Next(314, 0x787825d3, 0x74624f14); Next(315, 0x74624f14, 0x8cae7184);
    Next(316, 0x8cae7184, 0x7e3d811a); Next(317, 0x7e3d811a, 0xa41863e4); Next(318, 0xa41863e4, 0x8e5f80fc);
    Next(319, 0x8e5f80fc, 0xf6a7d375); Next(320, 0xf6a7d375, 0xb09a94ce);
  }

  lemma WordsTo340()
    ensures SeedWord(5489, 340) == 0x243be596
  {
    WordsTo320();
    hide SeedWord;
    Next(321, 0xb09a94ce, 0x8831e1bd); Next(322, 0x8831e1bd, 0x2db6489d); Next(323, 0x2db6489d, 0xce11ac34);
    Next(324, 0xce11ac34, 0xaba361f7); Next(325, 0xaba361f7, 0x3094c3ee); Next(326, 0x3094c3ee, 0x8b0dac2c);
    Next(327, 0x8b0dac2c, 0x4acb8d6d); Next(328, 0x4acb8d6d, 0xdef198e4); Next(329, 0xdef198e4, 0xe275f36c);
    Next(330, 0xe275f36c, 0xf3d87315); Next(331, 0xf3d87315, 0x77962ef9); Next(332, 0x77962ef9, 0x762b4124);
    Next(333, 0x762b4124, 0x28f081e6); Next(334, 0x28f081e6, 0x71b1570c); Next(335, 0x71b1570c, 0x9fe84e70);
    Next(336, 0x9fe84e70, 0xa5bff64a); Next(337, 0xa5bff64a, 0x3b80b3b9); Next(338, 0x3b80b3b9, 0x5003ea4f);
    Next(339, 0x5003ea4f, 0xfa113019); Next(340, 0xfa113019, 0x243be596);
  }

  lemma WordsTo360()
    ensures SeedWord(5489, 360) == 0xfc9e03a5
  {
    WordsTo340();
    hide SeedWord;
    Next(341, 0x243be596, 0xe898db83); Next(342, 0xe898db83, 0x92461ad6); Next(343, 0x92461ad6, 0x65d00afb);
    Next(344, 0x65d00afb, 0x45ca1ffa); Next(345, 0x45ca1ffa, 0x77b8f260); Next(346, 0x77b8f260, 0xc2548a9f);
    Next(347, 0xc2548a9f, 0x83cc2ce7); Next(348, 0x83cc2ce7, 0x19d744b5); Next(349, 0x19d744b5, 0xa2a5f9c6);
    Next(350, 0xa2a5f9c6, 0x82816fb2); Next(351, 0x82816fb2, 0x0fa641cf); Next(352, 0x0fa641cf, 0x4678bf0b);
    Next(353, 0x4678bf0b, 0xdd25ba53); Next(354, 0xdd25ba53, 0x48c752f2); Next(355, 0x48c752f2, 0x2aacc642);
    Next(356, 0x2aacc642, 0x90118b6e); Next(357, 0x90118b6e, 0x9a7ccf01); Next(358, 0x9a7ccf01, 0xab1b4895);
    Next(359, 0xab1b4895, 0xcbbd73fa); Next(360, 0xcbbd73fa, 0xfc9e03a5);
  }

  lemma WordsTo380()
    ensures SeedWord(5489, 380) == 0x3752c73d
  {
    WordsTo360();
    hide SeedWord;
    Next(361, 0xfc9e03a5, 0x5bd547e7); Next(362, 0x5bd547e7, 0x5de97528); Next(363, 0x5de97528, 0x7ced2b98);
    Next(364, 0x7ced2b98, 0xf31615c9); Next(365, 0xf31615c9, 0x89e5b41f); Next(366, 0x89e5b41f, 0x7dce95df);
    Next(367, 0x7dce95df, 0xf1c6f005); Next(368, 0xf1c6f005, 0xf219e9ce); Next(369, 0xf219e9ce, 0x42f2f452);
    Next(370, 0x42f2f452, 0x20dfd131); Next(371, 0x20dfd131, 0x2397c2c8); Next(372, 0x2397c2c8, 0xf594e25c);
    Next(373, 0xf594e25c, 0xd57b27f0); Next(374, 0xd57b27f0, 0xbd9ccf55); Next(375, 0xbd9ccf55, 0x19345dca);
    Next(376, 0x19345dca, 0xc0601c2a); Next(377, 0xc0601c2a, 0x661c0ea6); Next(378, 0x661c0ea6, 0x277a285d);
    Next(379, 0x277a285d, 0x4956b32c); Next(380, 0x4956b32c, 0x3752c73d);
  }

  lemma WordsTo398()
    ensures SeedWord(5489, 398) == 0x6707abf4
    ensures SeedWord(5489, 397) == 0xbdc68d6c
  {
    WordsTo380();
    hide SeedWord;
    Next(381, 0x3752c73d, 0x4ef3418e); Next(382, 0x4ef3418e, 0x72f765e9); Next(383, 0x72f765e9, 0x6a7c5e07);
    Next(384, 0x6a7c5e07, 0xab8c4fde); Next(385, 0xab8c4fde, 0xc41c3f4d); Next(386, 0xc41c3f4d, 0x2027b948);
    Next(387, 0x2027b948, 0x62cba2eb); Next(388, 0x62cba2eb, 0x20ec81d6); Next(389, 0x20ec81d6, 0x63a4c0f3);
    Next(390, 0x63a4c0f3, 0xd9dfa300); Next(391, 0xd9dfa300, 0x5c8cecb6); Next(392, 0x5c8cecb6, 0x9b4854bb);
    Next(393, 0x9b4854bb, 0x55ef6f86); Next(394, 0x55ef6f86, 0x0ad740cd); Next(395, 0x0ad740cd, 0xba35476c);
    Next(396, 0xba35476c, 0x56410df2); Next(397, 0x56410df2, 0xbdc68d6c); Next(398, 0xbdc68d6c, 0x6707abf4);
  }

  lemma WordsTo406()
    ensures SeedWord(5489, 399) == 0xd0bff638 && SeedWord(5489, 400) == 0xb61eb9d7
    ensures SeedWord(5489, 401) == 0x3c654f9a && SeedWord(5489, 402) == 0x30c7d354
    ensures SeedWord(5489, 403) == 0x663a55b7 && SeedWord(5489, 404) == 0xacdc3862
    ensures SeedWord(5489, 405) == 0x17ad9f75 && SeedWord(5489, 406) == 0xfa0887bf
  {
    WordsTo398();
    hide SeedWord;
    Next(399, 0x6707abf4, 0xd0bff638); Next(400, 0xd0bff638, 0xb61eb9d7); Next(401, 0xb61eb9d7, 0x3c654f9a);
    Next(402, 0x3c654f9a, 0x30c7d354); Next(403, 0x30c7d354, 0x663a55b7); Next(404, 0x663a55b7, 0xacdc3862);
    Next(405, 0xacdc3862, 0x17ad9f75); Next(406, 0x17ad9f75, 0xfa0887bf);
  }

  // --- draws -------------------------------------------------------------------------------------

  lemma SeededTerm(k: nat)
    requires k < N
    ensures Term(SeedState(5489), k) == SeedWord(5489, k)
  {
    hide SeedWord;
  }

  /** One step of the recurrence behind word `k`. */
  lemma NextTerm(k: nat, x: bv32, next: bv32, shifted: bv32, word: bv32)
    requires Term(SeedState(5489), k) == x && Term(SeedState(5489), k + 1) == next
    requires Term(SeedState(5489), k + 397) == shifted && NextWord(x, next, shifted) == word
    ensures Term(SeedState(5489), k + 624) == word
  {
    hide NextWord, SeedState;
    TermStep(SeedState(5489), k);
  }

  lemma TenTerms()
    ensures Term(SeedState(5489), 624) == 0x9b0afa27 && Term(SeedState(5489), 625) == 0xe99de361
    ensures Term(SeedState(5489), 626) == 0x87532b73 && Term(SeedState(5489), 627) == 0xc1fb51e3
    ensures Term(SeedState(5489), 628) == 0x2a0d7aa3 && Term(SeedState(5489), 629) == 0x2ce053d4
    ensures Term(SeedState(5489), 630) == 0xfde8d7eb && Term(SeedState(5489), 631) == 0x617bccbd
    ensures Term(SeedState(5489), 632) == 0x112007c2 && Term(SeedState(5489), 633) == 0xc790a887
  {
    WordsTo20();
    WordsTo398();
    WordsTo406();
    FirstTerms();
    hide SeedWord, Term, SeedState;
    NextTerm(0, 0x00001571, 0x4d98ee96, 0xbdc68d6c, 0x9b0afa27);
    NextTerm(1, 0x4d98ee96, 0xaf25f095, 0x6707abf4, 0xe99de361);
    NextTerm(2, 0xaf25f095, 0xafd9ba96, 0xd0bff638, 0x87532b73);
    NextTerm(3, 0xafd9ba96, 0x6fcbd068, 0xb61eb9d7, 0xc1fb51e3);
    NextTerm(4, 0x6fcbd068, 0x2cd06a72, 0x3c654f9a, 0x2a0d7aa3);
    NextTerm(5, 0x2cd06a72, 0x384f0100, 0x30c7d354, 0x2ce053d4);
    NextTerm(6, 0x384f0100, 0x85b46507, 0x663a55b7, 0xfde8d7eb);
    NextTerm(7, 0x85b46507, 0x295e8801, 0xacdc3862, 0x617bccbd);
    NextTerm(8, 0x295e8801, 0x0d1b316e, 0x17ad9f75, 0x112007c2);
    NextTerm(9, 0x0d1b316e, 0x7b305e70, 0xfa0887bf, 0xc790a887);
  }

  lemma FirstTerms()
    ensures forall k: nat :: k < N ==> Term(SeedState(5489), k) == SeedWord(5489, k)
  {
    forall k: nat | k < N
      ensures Term(SeedState(5489), k) == SeedWord(5489, k)
    {
      SeededTerm(k);
    }
  }

  /** Term 851 is the first that comes from a word of the same reload. */
  lemma TermFromRegeneratedWord()
    ensures Term(SeedState(5489), 851) == 0x53e4f8a7
  {
    TenTerms();
    WordsTo240();
    SeededTerm(227);
    SeededTerm(228);
    hide SeedWord, Term, SeedState;
    NextTerm(227, 0x9a49043d, 0xa3cd64bf, 0x9b0afa27, 0x53e4f8a7);
  }

  lemma TemperedWords()
    ensures Temper(0x9b0afa27) == 3499211612 && Temper(0xe99de361) == 581869302
    ensures Temper(0x87532b73) == 3890346734 && Temper(0xc1fb51e3) == 3586334585
    ensures Temper(0x2a0d7aa3) == 545404204 && Temper(0x2ce053d4) == 4161255391
    ensures Temper(0xfde8d7eb) == 3922919429 && Temper(0x617bccbd) == 949333985
    ensures Temper(0x112007c2) == 2715962298 && Temper(0xc790a887) == 1323567403
    ensures Temper(0x53e4f8a7) == 2397746050
  {
  }

  /** Draw `i` after seeding with 5489. */
  function Draw(i: nat): bv32 {
    Temper(Term(SeedState(5489), 624 + i))
  }

  /** The first ten draws, as they are published, and draw 227, from a regenerated word. */
  lemma PublishedDraws()
    ensures Draw(0) == 3499211612 && Draw(1) == 581869302
    ensures Draw(2) == 3890346734 && Draw(3) == 3586334585
    ensures Draw(4) == 545404204 && Draw(5) == 4161255391
    ensures Draw(6) == 3922919429 && Draw(7) == 949333985
    ensures Draw(8) == 2715962298 && Draw(9) == 1323567403
    ensures Draw(227) == 2397746050
  {
    TenTerms();
    TermFromRegeneratedWord();
    TemperedWords();
    hide Temper, Term;
  }

  /** The default generator draws them. */
  method DefaultDraws() returns (ten: seq<bv32>, later: bv32)
    ensures ten == [3499211612, 581869302, 3890346734, 3586334585, 545404204,
                    4161255391, 3922919429, 949333985, 2715962298, 1323567403]
    ensures later == 2397746050
  {
    hide Temper, Term, SeedState;
    var g := new RandomMT19937();
    PublishedDraws();
    var ys := g.Draws(228);
    ten, later := ys[..10], ys[227];
  }
}
