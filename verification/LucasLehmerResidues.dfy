/** The 125 Lucas-Lehmer residues of 2^127 - 1, each checked from the one before. */
module LucasLehmerResidues {
  import opened MersenneTest

  lemma Next(n: nat, s: int, r: int)
    requires LucasLehmer(n, MERSENNE_127) == s && Successor(s, MERSENNE_127) == r
    ensures LucasLehmer(n + 1, MERSENNE_127) == r
  {
  }

  lemma FirstResidue(n: nat)
    requires n == 0
    ensures LucasLehmer(n, MERSENNE_127) == 4
  {
  }

  lemma Residues0To25(n: nat)
    requires LucasLehmer(n, MERSENNE_127) == 4
    ensures LucasLehmer(n + 25, MERSENNE_127) == 0x25bf2ba1f12931fcfcda11cad3f41fdd
  {
    hide LucasLehmer;
    Next(n, 0x4, 0xe);
    Next(n + 1, 0xe, 0xc2);
    Next(n + 2, 0xc2, 0x9302);
    Next(n + 3, 0x9302, 0x546b4c02);
    Next(n + 4, 0x546b4c02, 0x1bd696d9f03d3002);
    Next(n + 5, 0x1bd696d9f03d3002, 0x306f7b285eead7d8cc88407a9f4c002);
    Next(n + 6, 0x306f7b285eead7d8cc88407a9f4c002, 0x6f90be04448b1245ad3f06b65e5948ef);
    Next(n + 7, 0x6f90be04448b1245ad3f06b65e5948ef, 0xd7e1e9269f12feca5aa0f2c5ecd40ad);
    Next(n + 8, 0xd7e1e9269f12feca5aa0f2c5ecd40ad, 0x40a03675270457732eea4e02fff1083c);
    Next(n + 9, 0x40a03675270457732eea4e02fff1083c, 0x57a071037c53abf356d80da56a5e87e9);
    Next(n + 10, 0x57a071037c53abf356d80da56a5e87e9, 0x259914cbe6f33b647bba1f14ee73e7fb);
    Next(n + 11, 0x259914cbe6f33b647bba1f14ee73e7fb, 0x78df9b8009aa9bb2bfa5d8faaf68b785);
    Next(n + 12, 0x78df9b8009aa9bb2bfa5d8faaf68b785, 0x46ede367f074c926ff0b2127f0544f10);
    Next(n + 13, 0x46ede367f074c926ff0b2127f0544f10, 0x514186263219b172078d709a706499c0);
    Next(n + 14, 0x514186263219b172078d709a706499c0, 0x17dfd74d0e4ca8b5762c0a88499df578);
    Next(n + 15, 0x17dfd74d0e4ca8b5762c0a88499df578, 0x1e789644d9b6e0bf70c2c25225f6002e);
    Next(n + 16, 0x1e789644d9b6e0bf70c2c25225f6002e, 0x46c8b5c713959d163c64292e8bf5b38c);
    Next(n + 17, 0x46c8b5c713959d163c64292e8bf5b38c, 0x6cb4880607b419d671b4ce98e8d1c6ba);
    Next(n + 18, 0x6cb4880607b419d671b4ce98e8d1c6ba, 0xfc3d7f352e604388d7df01551a8185c);
    Next(n + 19, 0xfc3d7f352e604388d7df01551a8185c, 0x778deeddeeae22fa99d341aaa0863c36);
    Next(n + 20, 0x778deeddeeae22fa99d341aaa0863c36, 0x27c677e95a118b08151c5d445db0c020);
    Next(n + 21, 0x27c677e95a118b08151c5d445db0c020, 0x71f814132d63e2656e67adceac514c0a);
    Next(n + 22, 0x71f814132d63e2656e67adceac514c0a, 0x4787ea066e236a3e901f8e77521391b4);
    Next(n + 23, 0x4787ea066e236a3e901f8e77521391b4, 0xca9d4defd7f3e189a245204045aa828);
    Next(n + 24, 0xca9d4defd7f3e189a245204045aa828, 0x25bf2ba1f12931fcfcda11cad3f41fdd);
  }

  lemma Residues25To50(n: nat)
    requires LucasLehmer(n, MERSENNE_127) == 0x25bf2ba1f12931fcfcda11cad3f41fdd
    ensures LucasLehmer(n + 25, MERSENNE_127) == 0x4aecd23f1e00e5476b3b081c075b9f36
  {
    hide LucasLehmer;
    Next(n, 0x25bf2ba1f12931fcfcda11cad3f41fdd, 0x6c9636269128a33486238cfac55ec8b6);
    Next(n + 1, 0x6c9636269128a33486238cfac55ec8b6, 0x626b706a3e0f1e3f6e7fcfb92cb6f279);
    Next(n + 2, 0x626b706a3e0f1e3f6e7fcfb92cb6f279, 0x4d231f59d123721523b7bc4158078db3);
    Next(n + 3, 0x4d231f59d123721523b7bc4158078db3, 0x556569b7fabb65d99aef52942c708da3);
    Next(n + 4, 0x556569b7fabb65d99aef52942c708da3, 0x9db0368623d5f02234c29cf7b63465);
    Next(n + 5, 0x9db0368623d5f02234c29cf7b63465, 0x4a6260a2464ab7043269e5f3f99cd920);
    Next(n + 6, 0x4a6260a2464ab7043269e5f3f99cd920, 0x56a27562b2bb32c04ad1074b7c02fd71);
    Next(n + 7, 0x56a27562b2bb32c04ad1074b7c02fd71, 0x2e97b5d151606cd4f276ccd22ddaf4ab);
    Next(n + 8, 0x2e97b5d151606cd4f276ccd22ddaf4ab, 0x7a0d63ebaa4603738e2010d8f1f60b92);
    Next(n + 9, 0x7a0d63ebaa4603738e2010d8f1f60b92, 0x67fc9b221d6563b2352a7ee24a39f0fa);
    Next(n + 10, 0x67fc9b221d6563b2352a7ee24a39f0fa, 0x9830496dfbfed7f5063aa49117c76fe);
    Next(n + 11, 0x9830496dfbfed7f5063aa49117c76fe, 0x5127f38b4dfde6cd085dffdace593ef3);
    Next(n + 12, 0x5127f38b4dfde6cd085dffdace593ef3, 0x4f16c8938aeafa9e8d1a53c6834a0d51);
    Next(n + 13, 0x4f16c8938aeafa9e8d1a53c6834a0d51, 0x6fcfcda765abf15235077b0ecbf6c3b);
    Next(n + 14, 0x6fcfcda765abf15235077b0ecbf6c3b, 0x10f5d4e66a723f65611d6d9142196f07);
    Next(n + 15, 0x10f5d4e66a723f65611d6d9142196f07, 0x6d5598196fa13eb76d7b40bfada33a0f);
    Next(n + 16, 0x6d5598196fa13eb76d7b40bfada33a0f, 0x23eb57de36bd537602610773889d714);
    Next(n + 17, 0x23eb57de36bd537602610773889d714, 0x1c4425e5ff1b2d86b3c941780b0d288d);
    Next(n + 18, 0x1c4425e5ff1b2d86b3c941780b0d288d, 0x67b79c0253ad7a6db497e7e8f6728337);
    Next(n + 19, 0x67b79c0253ad7a6db497e7e8f6728337, 0x2ad872b599dc4e48b75d5a3074e01213);
    Next(n + 20, 0x2ad872b599dc4e48b75d5a3074e01213, 0x19258658b675754c17172879079fd405);
    Next(n + 21, 0x19258658b675754c17172879079fd405, 0x5085c0ac7259f09e82a98d9f79978690);
    Next(n + 22, 0x5085c0ac7259f09e82a98d9f79978690, 0x287086475d31e6d2ceca7cee560b17c7);
    Next(n + 23, 0x287086475d31e6d2ceca7cee560b17c7, 0x236ef599e4abd6027748ec9c6485fe6d);
    Next(n + 24, 0x236ef599e4abd6027748ec9c6485fe6d, 0x4aecd23f1e00e5476b3b081c075b9f36);
  }

  lemma Residues50To75(n: nat)
    requires LucasLehmer(n, MERSENNE_127) == 0x4aecd23f1e00e5476b3b081c075b9f36
    ensures LucasLehmer(n + 25, MERSENNE_127) == 0xe40d700c643b5289d6ec3d92d6c9be4
  {
    hide LucasLehmer;
    Next(n, 0x4aecd23f1e00e5476b3b081c075b9f36, 0x359d02406fc390c868ac78002cf28465);
    Next(n + 1, 0x359d02406fc390c868ac78002cf28465, 0x46319dc2d76a5cfabfb7f34d3d399ce5);
    Next(n + 2, 0x46319dc2d76a5cfabfb7f34d3d399ce5, 0x5a733633392ea5720b423b922794a1b1);
    Next(n + 3, 0x5a733633392ea5720b423b922794a1b1, 0x58cc254e9e71b114f283aef607f287fb);
    Next(n + 4, 0x58cc254e9e71b114f283aef607f287fb, 0x1fe8fc13b3f618b8762c7cc1a3e3326);
    Next(n + 5, 0x1fe8fc13b3f618b8762c7cc1a3e3326, 0x6d32165d582601837ad09dcc97de3e22);
    Next(n + 6, 0x6d32165d582601837ad09dcc97de3e22, 0x2f64d8114178ff96dc179acb84e19f46);
    Next(n + 7, 0x2f64d8114178ff96dc179acb84e19f46, 0x3e843946bfa8aa0c6e97df85712dc35f);
    Next(n + 8, 0x3e843946bfa8aa0c6e97df85712dc35f, 0x236fa8a27784efee5fb674f90125885c);
    Next(n + 9, 0x236fa8a27784efee5fb674f90125885c, 0x115e3587e4eeb099d51882c587f8b130);
    Next(n + 10, 0x115e3587e4eeb099d51882c587f8b130, 0x13d913dbb0b16b6a3a92a4874c02282);
    Next(n + 11, 0x13d913dbb0b16b6a3a92a4874c02282, 0x6dd6f37b142e81bf00453ab1d92fbcba);
    Next(n + 12, 0x6dd6f37b142e81bf00453ab1d92fbcba, 0x2bb05e0356abaeb3ee5d310e28cb3c45);
    Next(n + 13, 0x2bb05e0356abaeb3ee5d310e28cb3c45, 0x4015d6304052a1822639528629e28675);
    Next(n + 14, 0x4015d6304052a1822639528629e28675, 0x1a39c69b77cfea76981139a9ccdaf63);
    Next(n + 15, 0x1a39c69b77cfea76981139a9ccdaf63, 0x6b5164d4897da5df74297f352528de8f);
    Next(n + 16, 0x6b5164d4897da5df74297f352528de8f, 0x62b067cb3bf055e5b307515e41d36cb7);
    Next(n + 17, 0x62b067cb3bf055e5b307515e41d36cb7, 0x11e70526af7b40f5056dac13240e4009);
    Next(n + 18, 0x11e70526af7b40f5056dac13240e4009, 0x473ce29b93c33d44b38d87e680ef42ae);
    Next(n + 19, 0x473ce29b93c33d44b38d87e680ef42ae, 0x15ca1853dd4920aaae3b655beb1f5d79);
    Next(n + 20, 0x15ca1853dd4920aaae3b655beb1f5d79, 0x71b57f397c152836534cfd78e66784b0);
    Next(n + 21, 0x71b57f397c152836534cfd78e66784b0, 0x3978fc677e478b22f0d295a612889067);
    Next(n + 22, 0x3978fc677e478b22f0d295a612889067, 0x23e781fd5525bc707718433f370ed729);
    Next(n + 23, 0x23e781fd5525bc707718433f370ed729, 0x4e79dd0314814d62e827a3e03da9d0a8);
    Next(n + 24, 0x4e79dd0314814d62e827a3e03da9d0a8, 0xe40d700c643b5289d6ec3d92d6c9be4);
  }

  lemma Residues75To100(n: nat)
    requires LucasLehmer(n, MERSENNE_127) == 0xe40d700c643b5289d6ec3d92d6c9be4
    ensures LucasLehmer(n + 25, MERSENNE_127) == 0x35254c3d1d0dc71616f9e919708e087
  {
    hide LucasLehmer;
    Next(n, 0xe40d700c643b5289d6ec3d92d6c9be4, 0x7bc06a1deb31a09fd258b42bd2510e59);
    Next(n + 1, 0x7bc06a1deb31a09fd258b42bd2510e59, 0xe877061ea6ad731adc85d51abafe4c6);
    Next(n + 2, 0xe877061ea6ad731adc85d51abafe4c6, 0x14dddc6bc7bc1433b0ad903b4b6ba692);
    Next(n + 3, 0x14dddc6bc7bc1433b0ad903b4b6ba692, 0x1bafdf498a13a666bd2f57ee11b9bd5);
    Next(n + 4, 0x1bafdf498a13a666bd2f57ee11b9bd5, 0x6fd9211e6f62094c37bc8a03672f34e8);
    Next(n + 5, 0x6fd9211e6f62094c37bc8a03672f34e8, 0x219ee997da0ea44eb9405906c8367e27);
    Next(n + 6, 0x219ee997da0ea44eb9405906c8367e27, 0x55f43c0f2070d79cca6ce2d1f1ad26db);
    Next(n + 7, 0x55f43c0f2070d79cca6ce2d1f1ad26db, 0x639140beca5b77fa4dae480a1e3b3ee7);
    Next(n + 8, 0x639140beca5b77fa4dae480a1e3b3ee7, 0x3e5d9b1d6ea9e684a649d19b0298ad52);
    Next(n + 9, 0x3e5d9b1d6ea9e684a649d19b0298ad52, 0x3e1aa777367cbd7e197845f0c2cd3acd);
    Next(n + 10, 0x3e1aa777367cbd7e197845f0c2cd3acd, 0x38e852cb489f7093aa6a6b0368d177f3);
    Next(n + 11, 0x38e852cb489f7093aa6a6b0368d177f3, 0x5d46412ae223b7e0e2e619ec7f4b0b65);
    Next(n + 12, 0x5d46412ae223b7e0e2e619ec7f4b0b65, 0x3de1237d6042775c8cc40e2e3908863d);
    Next(n + 13, 0x3de1237d6042775c8cc40e2e3908863d, 0x6847e45e76afbf303ae1080e3da31e04);
    Next(n + 14, 0x6847e45e76afbf303ae1080e3da31e04, 0x1cabcddf4bbe6ea8e40f45d031cada5a);
    Next(n + 15, 0x1cabcddf4bbe6ea8e40f45d031cada5a, 0x693123d3ae7d725fd56b79e7c37b6c0d);
    Next(n + 16, 0x693123d3ae7d725fd56b79e7c37b6c0d, 0x44bff493c1fc026c98874c6d1cddccab);
    Next(n + 17, 0x44bff493c1fc026c98874c6d1cddccab, 0x7f887e289792d5b2523789f5a0ecaa63);
    Next(n + 18, 0x7f887e289792d5b2523789f5a0ecaa63, 0x7f291593cbeeb3cbd51d6cff451813e4);
    Next(n + 19, 0x7f291593cbeeb3cbd51d6cff451813e4, 0x39004e639c27f8429cb5a1e44ed102bf);
    Next(n + 20, 0x39004e639c27f8429cb5a1e44ed102bf, 0x2595392cb1a5ed1262939e5e8470d95f);
    Next(n + 21, 0x2595392cb1a5ed1262939e5e8470d95f, 0x23609dd10526f0a25f66153df552d4);
    Next(n + 22, 0x23609dd10526f0a25f66153df552d4, 0x7b28359b52f970779c8f74c0d43d885e);
    Next(n + 23, 0x7b28359b52f970779c8f74c0d43d885e, 0x7f34183569b911299f8a3138b2c00b4b);
    Next(n + 24, 0x7f34183569b911299f8a3138b2c00b4b, 0x35254c3d1d0dc71616f9e919708e087);
  }

  lemma Residues100To125(n: nat)
    requires LucasLehmer(n, MERSENNE_127) == 0x35254c3d1d0dc71616f9e919708e087
    ensures LucasLehmer(n + 25, MERSENNE_127) == 0x0
  {
    hide LucasLehmer;
    Next(n, 0x35254c3d1d0dc71616f9e919708e087, 0x52cca2951ae8c926ecda66959b83fedd);
    Next(n + 1, 0x52cca2951ae8c926ecda66959b83fedd, 0x3cf51d110dc9f3611edbec1979b4118);
    Next(n + 2, 0x3cf51d110dc9f3611edbec1979b4118, 0x13d0dfeac99d5985e4da6c5d471043d7);
    Next(n + 3, 0x13d0dfeac99d5985e4da6c5d471043d7, 0x4541e291d3b88d044cdc2077dd1b62ad);
    Next(n + 4, 0x4541e291d3b88d044cdc2077dd1b62ad, 0x1313e00dfd11b9b511f6d2dc872400d6);
    Next(n + 5, 0x1313e00dfd11b9b511f6d2dc872400d6, 0x2b2d38e9a578e343eee1adddb67916cd);
    Next(n + 6, 0x2b2d38e9a578e343eee1adddb67916cd, 0x37b662e51de7a29f1715d913ecf562f);
    Next(n + 7, 0x37b662e51de7a29f1715d913ecf562f, 0x2f4fdd8b072ebcf1cd49ef6b655fc549);
    Next(n + 8, 0x2f4fdd8b072ebcf1cd49ef6b655fc549, 0x3ec8cee7e82b6e9ff1cc256487b5745c);
    Next(n + 9, 0x3ec8cee7e82b6e9ff1cc256487b5745c, 0x6521240fcb93719d7ffb5ebb596418a5);
    Next(n + 10, 0x6521240fcb93719d7ffb5ebb596418a5, 0xbf5fe6456b929a850862b8ecfb31ca6);
    Next(n + 11, 0xbf5fe6456b929a850862b8ecfb31ca6, 0x76f77dccdd83c78dfc30f54fc48d34f2);
    Next(n + 12, 0x76f77dccdd83c78dfc30f54fc48d34f2, 0x50e83dbba2f53e25e40f37533893675);
    Next(n + 13, 0x50e83dbba2f53e25e40f37533893675, 0xa9fb4338f5e9dcdb078c3b8831a816);
    Next(n + 14, 0xa9fb4338f5e9dcdb078c3b8831a816, 0x79d1b8381140b4faeb8eb99686416b89);
    Next(n + 15, 0x79d1b8381140b4faeb8eb99686416b89, 0x3c6b23eb925a99c38680ba5eedf42c5c);
    Next(n + 16, 0x3c6b23eb925a99c38680ba5eedf42c5c, 0x538d9f6db88b58f5120c4aeec9f423f8);
    Next(n + 17, 0x538d9f6db88b58f5120c4aeec9f423f8, 0x63e8e7ef5b1c704dd08d06016dd8157);
    Next(n + 18, 0x63e8e7ef5b1c704dd08d06016dd8157, 0x63b188109e10530aa66647fd59834fb3);
    Next(n + 19, 0x63b188109e10530aa66647fd59834fb3, 0x2341b7efa3a22601a44780285506ef21);
    Next(n + 20, 0x2341b7efa3a22601a44780285506ef21, 0x26a4daf84d77e7df90bbae1291ad9ac0);
    Next(n + 21, 0x26a4daf84d77e7df90bbae1291ad9ac0, 0x6b6ddd812278da149a55ececfd2f182e);
    Next(n + 22, 0x6b6ddd812278da149a55ececfd2f182e, 0x41f5d7af9dcde77eb7696225a197b8d9);
    Next(n + 23, 0x41f5d7af9dcde77eb7696225a197b8d9, 0x10000000000000000);
    Next(n + 24, 0x10000000000000000, 0x0);
  }

  lemma LastResidueIsZero()
    ensures LucasLehmer(125, MERSENNE_127) == 0
  {
    FirstResidue(0);
    hide LucasLehmer;
    Residues0To25(0);
    Residues25To50(25);
    Residues50To75(50);
    Residues75To100(75);
    Residues100To125(100);
  }
}
