/**
 SHA-256 of "abc", the one-block example published with FIPS 180-4: every word of the schedule,
 every state between the rounds, and the digest.
 */
module Sha256Example {
  import opened Sha256Spec

  const BLOCK: seq<bv8> := [97, 98, 99, 128] + Zeros(52) + [0, 0, 0, 0, 0, 0, 0, 24]

  lemma Padded()
    ensures Pad([97, 98, 99]) == BLOCK
  {
    Length();
    hide LengthBytes, Zeros;
    assert Filling(3) == 52;
    assert [97, 98, 99] + [0x80] == [97, 98, 99, 128];
  }

  lemma Length()
    ensures LengthBytes(24) == [0, 0, 0, 0, 0, 0, 0, 24]
  {
    assert Byte(0) == 0 && Byte(24) == 24;
    hide Byte;
  }

  // ----- One step of each recursion -----

  lemma Step(t: nat)
    requires t < 64
    ensures Rounds(H0, BLOCK, t + 1) == Round(Rounds(H0, BLOCK, t), Constant(t), Schedule(BLOCK, t))
  {
    hide Round, Constant, Schedule;
  }

  lemma {:induction false} Next(t: nat)
    requires t >= 16
    ensures Schedule(BLOCK, t) ==
            Add(Add(Add(SmallSigma1(Schedule(BLOCK, t - 2)), Schedule(BLOCK, t - 7)),
                    SmallSigma0(Schedule(BLOCK, t - 15))), Schedule(BLOCK, t - 16))
  {
    hide Add, SmallSigma0, SmallSigma1;
  }

  // ----- Constants and schedule, eight words at a time -----

  lemma Constants0()
    ensures Constant(0) == 0x428a2f98 && Constant(1) == 0x71374491 && Constant(2) == 0xb5c0fbcf &&
            Constant(3) == 0xe9b5dba5 && Constant(4) == 0x3956c25b && Constant(5) == 0x59f111f1 &&
            Constant(6) == 0x923f82a4 && Constant(7) == 0xab1c5ed5
  {
    AsWords0();
    hide AsWord;
  }

  lemma AsWords0()
    ensures AsWord(0x428a2f98) == 0x428a2f98 && AsWord(0x71374491) == 0x71374491 && AsWord(0xb5c0fbcf) == 0xb5c0fbcf &&
            AsWord(0xe9b5dba5) == 0xe9b5dba5 && AsWord(0x3956c25b) == 0x3956c25b && AsWord(0x59f111f1) == 0x59f111f1 &&
            AsWord(0x923f82a4) == 0x923f82a4 && AsWord(0xab1c5ed5) == 0xab1c5ed5
  {
  }

  lemma Constants1()
    ensures Constant(8) == 0xd807aa98 && Constant(9) == 0x12835b01 && Constant(10) == 0x243185be &&
            Constant(11) == 0x550c7dc3 && Constant(12) == 0x72be5d74 && Constant(13) == 0x80deb1fe &&
            Constant(14) == 0x9bdc06a7 && Constant(15) == 0xc19bf174
  {
    AsWords1();
    hide AsWord;
  }

  lemma AsWords1()
    ensures AsWord(0xd807aa98) == 0xd807aa98 && AsWord(0x12835b01) == 0x12835b01 && AsWord(0x243185be) == 0x243185be &&
            AsWord(0x550c7dc3) == 0x550c7dc3 && AsWord(0x72be5d74) == 0x72be5d74 && AsWord(0x80deb1fe) == 0x80deb1fe &&
            AsWord(0x9bdc06a7) == 0x9bdc06a7 && AsWord(0xc19bf174) == 0xc19bf174
  {
  }

  lemma Constants2()
    ensures Constant(16) == 0xe49b69c1 && Constant(17) == 0xefbe4786 && Constant(18) == 0x0fc19dc6 &&
            Constant(19) == 0x240ca1cc && Constant(20) == 0x2de92c6f && Constant(21) == 0x4a7484aa &&
            Constant(22) == 0x5cb0a9dc && Constant(23) == 0x76f988da
  {
    AsWords2();
    hide AsWord;
  }

  lemma AsWords2()
    ensures AsWord(0xe49b69c1) == 0xe49b69c1 && AsWord(0xefbe4786) == 0xefbe4786 && AsWord(0x0fc19dc6) == 0x0fc19dc6 &&
            AsWord(0x240ca1cc) == 0x240ca1cc && AsWord(0x2de92c6f) == 0x2de92c6f && AsWord(0x4a7484aa) == 0x4a7484aa &&
            AsWord(0x5cb0a9dc) == 0x5cb0a9dc && AsWord(0x76f988da) == 0x76f988da
  {
  }

  lemma Constants3()
    ensures Constant(24) == 0x983e5152 && Constant(25) == 0xa831c66d && Constant(26) == 0xb00327c8 &&
            Constant(27) == 0xbf597fc7 && Constant(28) == 0xc6e00bf3 && Constant(29) == 0xd5a79147 &&
            Constant(30) == 0x06ca6351 && Constant(31) == 0x14292967
  {
    AsWords3();
    hide AsWord;
  }

  lemma AsWords3()
    ensures AsWord(0x983e5152) == 0x983e5152 && AsWord(0xa831c66d) == 0xa831c66d && AsWord(0xb00327c8) == 0xb00327c8 &&
            AsWord(0xbf597fc7) == 0xbf597fc7 && AsWord(0xc6e00bf3) == 0xc6e00bf3 && AsWord(0xd5a79147) == 0xd5a79147 &&
            AsWord(0x06ca6351) == 0x06ca6351 && AsWord(0x14292967) == 0x14292967
  {
  }

  lemma Constants4()
    ensures Constant(32) == 0x27b70a85 && Constant(33) == 0x2e1b2138 && Constant(34) == 0x4d2c6dfc &&
            Constant(35) == 0x53380d13 && Constant(36) == 0x650a7354 && Constant(37) == 0x766a0abb &&
            Constant(38) == 0x81c2c92e && Constant(39) == 0x92722c85
  {
    AsWords4();
    hide AsWord;
  }

  lemma AsWords4()
    ensures AsWord(0x27b70a85) == 0x27b70a85 && AsWord(0x2e1b2138) == 0x2e1b2138 && AsWord(0x4d2c6dfc) == 0x4d2c6dfc &&
            AsWord(0x53380d13) == 0x53380d13 && AsWord(0x650a7354) == 0x650a7354 && AsWord(0x766a0abb) == 0x766a0abb &&
            AsWord(0x81c2c92e) == 0x81c2c92e && AsWord(0x92722c85) == 0x92722c85
  {
  }

  lemma Constants5()
    ensures Constant(40) == 0xa2bfe8a1 && Constant(41) == 0xa81a664b && Constant(42) == 0xc24b8b70 &&
            Constant(43) == 0xc76c51a3 && Constant(44) == 0xd192e819 && Constant(45) == 0xd6990624 &&
            Constant(46) == 0xf40e3585 && Constant(47) == 0x106aa070
  {
    AsWords5();
    hide AsWord;
  }

  lemma AsWords5()
    ensures AsWord(0xa2bfe8a1) == 0xa2bfe8a1 && AsWord(0xa81a664b) == 0xa81a664b && AsWord(0xc24b8b70) == 0xc24b8b70 &&
            AsWord(0xc76c51a3) == 0xc76c51a3 && AsWord(0xd192e819) == 0xd192e819 && AsWord(0xd6990624) == 0xd6990624 &&
            AsWord(0xf40e3585) == 0xf40e3585 && AsWord(0x106aa070) == 0x106aa070
  {
  }

  lemma Constants6()
    ensures Constant(48) == 0x19a4c116 && Constant(49) == 0x1e376c08 && Constant(50) == 0x2748774c &&
            Constant(51) == 0x34b0bcb5 && Constant(52) == 0x391c0cb3 && Constant(53) == 0x4ed8aa4a &&
            Constant(54) == 0x5b9cca4f && Constant(55) == 0x682e6ff3
  {
    AsWords6();
    hide AsWord;
  }

  lemma AsWords6()
    ensures AsWord(0x19a4c116) == 0x19a4c116 && AsWord(0x1e376c08) == 0x1e376c08 && AsWord(0x2748774c) == 0x2748774c &&
            AsWord(0x34b0bcb5) == 0x34b0bcb5 && AsWord(0x391c0cb3) == 0x391c0cb3 && AsWord(0x4ed8aa4a) == 0x4ed8aa4a &&
            AsWord(0x5b9cca4f) == 0x5b9cca4f && AsWord(0x682e6ff3) == 0x682e6ff3
  {
  }

  lemma Constants7()
    ensures Constant(56) == 0x748f82ee && Constant(57) == 0x78a5636f && Constant(58) == 0x84c87814 &&
            Constant(59) == 0x8cc70208 && Constant(60) == 0x90befffa && Constant(61) == 0xa4506ceb &&
            Constant(62) == 0xbef9a3f7 && Constant(63) == 0xc67178f2
  {
    AsWords7();
    hide AsWord;
  }

  lemma AsWords7()
    ensures AsWord(0x748f82ee) == 0x748f82ee && AsWord(0x78a5636f) == 0x78a5636f && AsWord(0x84c87814) == 0x84c87814 &&
            AsWord(0x8cc70208) == 0x8cc70208 && AsWord(0x90befffa) == 0x90befffa && AsWord(0xa4506ceb) == 0xa4506ceb &&
            AsWord(0xbef9a3f7) == 0xbef9a3f7 && AsWord(0xc67178f2) == 0xc67178f2
  {
  }

  lemma Words0()
    ensures Schedule(BLOCK, 0) == 0x61626380 && Schedule(BLOCK, 1) == 0 && Schedule(BLOCK, 2) == 0 &&
            Schedule(BLOCK, 3) == 0 && Schedule(BLOCK, 4) == 0 && Schedule(BLOCK, 5) == 0 &&
            Schedule(BLOCK, 6) == 0 && Schedule(BLOCK, 7) == 0
  {
    FirstWords();
  }

  lemma FirstWords()
    ensures Load(BLOCK, 0) == 0x61626380 && Load(BLOCK, 15) == 24
    ensures forall t :: 1 <= t < 15 ==> Load(BLOCK, t) == 0
  {
  }

  lemma Words1()
    ensures Schedule(BLOCK, 8) == 0 && Schedule(BLOCK, 9) == 0 &&
            Schedule(BLOCK, 10) == 0 && Schedule(BLOCK, 11) == 0 &&
            Schedule(BLOCK, 12) == 0 && Schedule(BLOCK, 13) == 0 &&
            Schedule(BLOCK, 14) == 0 && Schedule(BLOCK, 15) == 24
  {
    FirstWords();
  }

  lemma {:induction false} Words2()
    ensures Schedule(BLOCK, 16) == 0x61626380 && Schedule(BLOCK, 17) == 0x000f0000 &&
            Schedule(BLOCK, 18) == 0x7da86405 && Schedule(BLOCK, 19) == 0x600003c6 &&
            Schedule(BLOCK, 20) == 0x3e9d7b78 && Schedule(BLOCK, 21) == 0x0183fc00 &&
            Schedule(BLOCK, 22) == 0x12dcbfdb && Schedule(BLOCK, 23) == 0xe2e2c38e
  {
    hide Schedule;
    Words0();
    Words1();
    Next(16);
    Next(17);
    Next(18);
    Next(19);
    Next(20);
    Next(21);
    Next(22);
    Next(23);
  }

  lemma {:induction false} Words3()
    ensures Schedule(BLOCK, 24) == 0xc8215c1a && Schedule(BLOCK, 25) == 0xb73679a2 &&
            Schedule(BLOCK, 26) == 0xe5bc3909 && Schedule(BLOCK, 27) == 0x32663c5b &&
            Schedule(BLOCK, 28) == 0x9d209d67 && Schedule(BLOCK, 29) == 0xec8726cb &&
            Schedule(BLOCK, 30) == 0x702138a4 && Schedule(BLOCK, 31) == 0xd3b7973b
  {
    hide Schedule;
    Words1();
    Words2();
    Next(24);
    Next(25);
    Next(26);
    Next(27);
    Next(28);
    Next(29);
    Next(30);
    Next(31);
  }

  lemma {:induction false} Words4()
    ensures Schedule(BLOCK, 32) == 0x93f5997f && Schedule(BLOCK, 33) == 0x3b68ba73 &&
            Schedule(BLOCK, 34) == 0xaff4ffc1 && Schedule(BLOCK, 35) == 0xf10a5c62 &&
            Schedule(BLOCK, 36) == 0x0a8b3996 && Schedule(BLOCK, 37) == 0x72af830a &&
            Schedule(BLOCK, 38) == 0x9409e33e && Schedule(BLOCK, 39) == 0x24641522
  {
    hide Schedule;
    Words2();
    Words3();
    Next(32);
    Next(33);
    Next(34);
    Next(35);
    Next(36);
    Next(37);
    Next(38);
    Next(39);
  }

  lemma {:induction false} Words5()
    ensures Schedule(BLOCK, 40) == 0x9f47bf94 && Schedule(BLOCK, 41) == 0xf0a64f5a &&
            Schedule(BLOCK, 42) == 0x3e246a79 && Schedule(BLOCK, 43) == 0x27333ba3 &&
            Schedule(BLOCK, 44) == 0x0c4763f2 && Schedule(BLOCK, 45) == 0x840abf27 &&
            Schedule(BLOCK, 46) == 0x7a290d5d && Schedule(BLOCK, 47) == 0x065c43da
  {
    hide Schedule;
    Words3();
    Words4();
    Next(40);
    Next(41);
    Next(42);
    Next(43);
    Next(44);
    Next(45);
    Next(46);
    Next(47);
  }

  lemma {:induction false} Words6()
    ensures Schedule(BLOCK, 48) == 0xfb3e89cb && Schedule(BLOCK, 49) == 0xcc7617db &&
            Schedule(BLOCK, 50) == 0xb9e66c34 && Schedule(BLOCK, 51) == 0xa9993667 &&
            Schedule(BLOCK, 52) == 0x84badedd && Schedule(BLOCK, 53) == 0xc21462bc &&
            Schedule(BLOCK, 54) == 0x1487472c && Schedule(BLOCK, 55) == 0xb20f7a99
  {
    hide Schedule;
    Words4();
    Words5();
    Next(48);
    Next(49);
    Next(50);
    Next(51);
    Next(52);
    Next(53);
    Next(54);
    Next(55);
  }

  lemma {:induction false} Words7()
    ensures Schedule(BLOCK, 56) == 0xef57b9cd && Schedule(BLOCK, 57) == 0xebe6b238 &&
            Schedule(BLOCK, 58) == 0x9fe3095e && Schedule(BLOCK, 59) == 0x78bc8d4b &&
            Schedule(BLOCK, 60) == 0xa43fcf15 && Schedule(BLOCK, 61) == 0x668b2ff8 &&
            Schedule(BLOCK, 62) == 0xeeaba2cc && Schedule(BLOCK, 63) == 0x12b1edeb
  {
    hide Schedule;
    Words5();
    Words6();
    Next(56);
    Next(57);
    Next(58);
    Next(59);
    Next(60);
    Next(61);
    Next(62);
    Next(63);
  }

  // ----- The rounds -----

  lemma {:induction false} Rounds8()
    ensures Rounds(H0, BLOCK, 8) ==
            State(0x85a07b5f, 0xe5030380, 0x2b4209f5, 0x04409a6a, 0x0c657a79, 0x9b27a401, 0x714260ad, 0x43ada245)
  {
    hide Rounds, Schedule, Constant;
    Start();
    Constants0();
    Words0();
    Step(0);
    assert Rounds(H0, BLOCK, 1) ==
           State(0x5d6aebcd, 0x6a09e667, 0xbb67ae85, 0x3c6ef372, 0xfa2a4622, 0x510e527f, 0x9b05688c, 0x1f83d9ab);
    Step(1);
    assert Rounds(H0, BLOCK, 2) ==
           State(0x5a6ad9ad, 0x5d6aebcd, 0x6a09e667, 0xbb67ae85, 0x78ce7989, 0xfa2a4622, 0x510e527f, 0x9b05688c);
    Step(2);
    assert Rounds(H0, BLOCK, 3) ==
           State(0xc8c347a7, 0x5a6ad9ad, 0x5d6aebcd, 0x6a09e667, 0xf92939eb, 0x78ce7989, 0xfa2a4622, 0x510e527f);
    Step(3);
    assert Rounds(H0, BLOCK, 4) ==
           State(0xd550f666, 0xc8c347a7, 0x5a6ad9ad, 0x5d6aebcd, 0x24e00850, 0xf92939eb, 0x78ce7989, 0xfa2a4622);
    Step(4);
    assert Rounds(H0, BLOCK, 5) ==
           State(0x04409a6a, 0xd550f666, 0xc8c347a7, 0x5a6ad9ad, 0x43ada245, 0x24e00850, 0xf92939eb, 0x78ce7989);
    Step(5);
    assert Rounds(H0, BLOCK, 6) ==
           State(0x2b4209f5, 0x04409a6a, 0xd550f666, 0xc8c347a7, 0x714260ad, 0x43ada245, 0x24e00850, 0xf92939eb);
    Step(6);
    assert Rounds(H0, BLOCK, 7) ==
           State(0xe5030380, 0x2b4209f5, 0x04409a6a, 0xd550f666, 0x9b27a401, 0x714260ad, 0x43ada245, 0x24e00850);
    Step(7);
  }

  lemma {:induction false} Rounds16()
    ensures Rounds(H0, BLOCK, 16) ==
            State(0xb0fa238e, 0xc0645fde, 0xd932eb16, 0x87912990, 0x07590dcd, 0x0b92f20c, 0x745a48de, 0x1e578218)
  {
    hide Rounds, Schedule, Constant;
    Rounds8();
    Constants1();
    Words1();
    Step(8);
    assert Rounds(H0, BLOCK, 9) ==
           State(0x8e04ecb9, 0x85a07b5f, 0xe5030380, 0x2b4209f5, 0x32ca2d8c, 0x0c657a79, 0x9b27a401, 0x714260ad);
    Step(9);
    assert Rounds(H0, BLOCK, 10) ==
           State(0x8c87346b, 0x8e04ecb9, 0x85a07b5f, 0xe5030380, 0x1cc92596, 0x32ca2d8c, 0x0c657a79, 0x9b27a401);
    Step(10);
    assert Rounds(H0, BLOCK, 11) ==
           State(0x4798a3f4, 0x8c87346b, 0x8e04ecb9, 0x85a07b5f, 0x436b23e8, 0x1cc92596, 0x32ca2d8c, 0x0c657a79);
    Step(11);
    assert Rounds(H0, BLOCK, 12) ==
           State(0xf71fc5a9, 0x4798a3f4, 0x8c87346b, 0x8e04ecb9, 0x816fd6e9, 0x436b23e8, 0x1cc92596, 0x32ca2d8c);
    Step(12);
    assert Rounds(H0, BLOCK, 13) ==
           State(0x87912990, 0xf71fc5a9, 0x4798a3f4, 0x8c87346b, 0x1e578218, 0x816fd6e9, 0x436b23e8, 0x1cc92596);
    Step(13);
    assert Rounds(H0, BLOCK, 14) ==
           State(0xd932eb16, 0x87912990, 0xf71fc5a9, 0x4798a3f4, 0x745a48de, 0x1e578218, 0x816fd6e9, 0x436b23e8);
    Step(14);
    assert Rounds(H0, BLOCK, 15) ==
           State(0xc0645fde, 0xd932eb16, 0x87912990, 0xf71fc5a9, 0x0b92f20c, 0x745a48de, 0x1e578218, 0x816fd6e9);
    Step(15);
  }

  lemma {:induction false} Rounds24()
    ensures Rounds(H0, BLOCK, 24) ==
            State(0xc5d53d8d, 0xa7a3623f, 0xc2606d6d, 0x9dc68b63, 0xaa47c347, 0x49f5114a, 0xe1257970, 0x8ada8930)
  {
    hide Rounds, Schedule, Constant;
    Rounds16();
    Constants2();
    Words2();
    Step(16);
    assert Rounds(H0, BLOCK, 17) ==
           State(0x21da9a9b, 0xb0fa238e, 0xc0645fde, 0xd932eb16, 0x8034229c, 0x07590dcd, 0x0b92f20c, 0x745a48de);
    Step(17);
    assert Rounds(H0, BLOCK, 18) ==
           State(0xc2fbd9d1, 0x21da9a9b, 0xb0fa238e, 0xc0645fde, 0x846ee454, 0x8034229c, 0x07590dcd, 0x0b92f20c);
    Step(18);
    assert Rounds(H0, BLOCK, 19) ==
           State(0xfe777bbf, 0xc2fbd9d1, 0x21da9a9b, 0xb0fa238e, 0xcc899961, 0x846ee454, 0x8034229c, 0x07590dcd);
    Step(19);
    assert Rounds(H0, BLOCK, 20) ==
           State(0xe1f20c33, 0xfe777bbf, 0xc2fbd9d1, 0x21da9a9b, 0xb0638179, 0xcc899961, 0x846ee454, 0x8034229c);
    Step(20);
    assert Rounds(H0, BLOCK, 21) ==
           State(0x9dc68b63, 0xe1f20c33, 0xfe777bbf, 0xc2fbd9d1, 0x8ada8930, 0xb0638179, 0xcc899961, 0x846ee454);
    Step(21);
    assert Rounds(H0, BLOCK, 22) ==
           State(0xc2606d6d, 0x9dc68b63, 0xe1f20c33, 0xfe777bbf, 0xe1257970, 0x8ada8930, 0xb0638179, 0xcc899961);
    Step(22);
    assert Rounds(H0, BLOCK, 23) ==
           State(0xa7a3623f, 0xc2606d6d, 0x9dc68b63, 0xe1f20c33, 0x49f5114a, 0xe1257970, 0x8ada8930, 0xb0638179);
    Step(23);
  }

  lemma {:induction false} Rounds32()
    ensures Rounds(H0, BLOCK, 32) ==
            State(0x73b33bf5, 0xea992a22, 0xa0060b30, 0x363482c9, 0xba591112, 0x0109ab3a, 0xade79437, 0x6112a3b7)
  {
    hide Rounds, Schedule, Constant;
    Rounds24();
    Constants3();
    Words3();
    Step(24);
    assert Rounds(H0, BLOCK, 25) ==
           State(0x1c2c2838, 0xc5d53d8d, 0xa7a3623f, 0xc2606d6d, 0x2823ef91, 0xaa47c347, 0x49f5114a, 0xe1257970);
    Step(25);
    assert Rounds(H0, BLOCK, 26) ==
           State(0xcde8037d, 0x1c2c2838, 0xc5d53d8d, 0xa7a3623f, 0x14383d8e, 0x2823ef91, 0xaa47c347, 0x49f5114a);
    Step(26);
    assert Rounds(H0, BLOCK, 27) ==
           State(0xb62ec4bc, 0xcde8037d, 0x1c2c2838, 0xc5d53d8d, 0xc74c6516, 0x14383d8e, 0x2823ef91, 0xaa47c347);
    Step(27);
    assert Rounds(H0, BLOCK, 28) ==
           State(0x77d37528, 0xb62ec4bc, 0xcde8037d, 0x1c2c2838, 0xedffbff8, 0xc74c6516, 0x14383d8e, 0x2823ef91);
    Step(28);
    assert Rounds(H0, BLOCK, 29) ==
           State(0x363482c9, 0x77d37528, 0xb62ec4bc, 0xcde8037d, 0x6112a3b7, 0xedffbff8, 0xc74c6516, 0x14383d8e);
    Step(29);
    assert Rounds(H0, BLOCK, 30) ==
           State(0xa0060b30, 0x363482c9, 0x77d37528, 0xb62ec4bc, 0xade79437, 0x6112a3b7, 0xedffbff8, 0xc74c6516);
    Step(30);
    assert Rounds(H0, BLOCK, 31) ==
           State(0xea992a22, 0xa0060b30, 0x363482c9, 0x77d37528, 0x0109ab3a, 0xade79437, 0x6112a3b7, 0xedffbff8);
    Step(31);
  }

  lemma {:induction false} Rounds40()
    ensures Rounds(H0, BLOCK, 40) ==
            State(0x79ea687a, 0x6dc57a8a, 0x34df1604, 0x41a65cb1, 0x1efbc0a0, 0xf0781bc8, 0xa507a53d, 0x0772a26b)
  {
    hide Rounds, Schedule, Constant;
    Rounds32();
    Constants4();
    Words4();
    Step(32);
    assert Rounds(H0, BLOCK, 33) ==
           State(0x98e12507, 0x73b33bf5, 0xea992a22, 0xa0060b30, 0x9cd9f5f6, 0xba591112, 0x0109ab3a, 0xade79437);
    Step(33);
    assert Rounds(H0, BLOCK, 34) ==
           State(0xfe604df5, 0x98e12507, 0x73b33bf5, 0xea992a22, 0x59249dd3, 0x9cd9f5f6, 0xba591112, 0x0109ab3a);
    Step(34);
    assert Rounds(H0, BLOCK, 35) ==
           State(0xa9a7738c, 0xfe604df5, 0x98e12507, 0x73b33bf5, 0x085f3833, 0x59249dd3, 0x9cd9f5f6, 0xba591112);
    Step(35);
    assert Rounds(H0, BLOCK, 36) ==
           State(0x65a0cfe4, 0xa9a7738c, 0xfe604df5, 0x98e12507, 0xf4b002d6, 0x085f3833, 0x59249dd3, 0x9cd9f5f6);
    Step(36);
    assert Rounds(H0, BLOCK, 37) ==
           State(0x41a65cb1, 0x65a0cfe4, 0xa9a7738c, 0xfe604df5, 0x0772a26b, 0xf4b002d6, 0x085f3833, 0x59249dd3);
    Step(37);
    assert Rounds(H0, BLOCK, 38) ==
           State(0x34df1604, 0x41a65cb1, 0x65a0cfe4, 0xa9a7738c, 0xa507a53d, 0x0772a26b, 0xf4b002d6, 0x085f3833);
    Step(38);
    assert Rounds(H0, BLOCK, 39) ==
           State(0x6dc57a8a, 0x34df1604, 0x41a65cb1, 0x65a0cfe4, 0xf0781bc8, 0xa507a53d, 0x0772a26b, 0xf4b002d6);
    Step(39);
  }

  lemma {:induction false} Rounds48()
    ensures Rounds(H0, BLOCK, 48) ==
            State(0x4172328d, 0xa14c14b0, 0x72ab4b91, 0x26628815, 0xfecf0bc6, 0xd57b94a9, 0xb7755da1, 0xa80f11f0)
  {
    hide Rounds, Schedule, Constant;
    Rounds40();
    Constants5();
    Words5();
    Step(40);
    assert Rounds(H0, BLOCK, 41) ==
           State(0xd6670766, 0x79ea687a, 0x6dc57a8a, 0x34df1604, 0x26352d63, 0x1efbc0a0, 0xf0781bc8, 0xa507a53d);
    Step(41);
    assert Rounds(H0, BLOCK, 42) ==
           State(0xdf46652f, 0xd6670766, 0x79ea687a, 0x6dc57a8a, 0x838b2711, 0x26352d63, 0x1efbc0a0, 0xf0781bc8);
    Step(42);
    assert Rounds(H0, BLOCK, 43) ==
           State(0x17aa0dfe, 0xdf46652f, 0xd6670766, 0x79ea687a, 0xdecd4715, 0x838b2711, 0x26352d63, 0x1efbc0a0);
    Step(43);
    assert Rounds(H0, BLOCK, 44) ==
           State(0x9d4baf93, 0x17aa0dfe, 0xdf46652f, 0xd6670766, 0xfda24c2e, 0xdecd4715, 0x838b2711, 0x26352d63);
    Step(44);
    assert Rounds(H0, BLOCK, 45) ==
           State(0x26628815, 0x9d4baf93, 0x17aa0dfe, 0xdf46652f, 0xa80f11f0, 0xfda24c2e, 0xdecd4715, 0x838b2711);
    Step(45);
    assert Rounds(H0, BLOCK, 46) ==
           State(0x72ab4b91, 0x26628815, 0x9d4baf93, 0x17aa0dfe, 0xb7755da1, 0xa80f11f0, 0xfda24c2e, 0xdecd4715);
    Step(46);
    assert Rounds(H0, BLOCK, 47) ==
           State(0xa14c14b0, 0x72ab4b91, 0x26628815, 0x9d4baf93, 0xd57b94a9, 0xb7755da1, 0xa80f11f0, 0xfda24c2e);
    Step(47);
  }

  lemma {:induction false} Rounds56()
    ensures Rounds(H0, BLOCK, 56) ==
            State(0x38cc9913, 0x3ec45cdb, 0xf5702fdb, 0x101fd28f, 0x54cb266b, 0xe50e1b4f, 0x9f4787c3, 0x529e7d00)
  {
    hide Rounds, Schedule, Constant;
    Rounds48();
    Constants6();
    Words6();
    Step(48);
    assert Rounds(H0, BLOCK, 49) ==
           State(0x05757ceb, 0x4172328d, 0xa14c14b0, 0x72ab4b91, 0xbd714038, 0xfecf0bc6, 0xd57b94a9, 0xb7755da1);
    Step(49);
    assert Rounds(H0, BLOCK, 50) ==
           State(0xf11bfaa8, 0x05757ceb, 0x4172328d, 0xa14c14b0, 0x6e5c390c, 0xbd714038, 0xfecf0bc6, 0xd57b94a9);
    Step(50);
    assert Rounds(H0, BLOCK, 51) ==
           State(0x7a0508a1, 0xf11bfaa8, 0x05757ceb, 0x4172328d, 0x52f1ccf7, 0x6e5c390c, 0xbd714038, 0xfecf0bc6);
    Step(51);
    assert Rounds(H0, BLOCK, 52) ==
           State(0x886e7a22, 0x7a0508a1, 0xf11bfaa8, 0x05757ceb, 0x49231c1e, 0x52f1ccf7, 0x6e5c390c, 0xbd714038);
    Step(52);
    assert Rounds(H0, BLOCK, 53) ==
           State(0x101fd28f, 0x886e7a22, 0x7a0508a1, 0xf11bfaa8, 0x529e7d00, 0x49231c1e, 0x52f1ccf7, 0x6e5c390c);
    Step(53);
    assert Rounds(H0, BLOCK, 54) ==
           State(0xf5702fdb, 0x101fd28f, 0x886e7a22, 0x7a0508a1, 0x9f4787c3, 0x529e7d00, 0x49231c1e, 0x52f1ccf7);
    Step(54);
    assert Rounds(H0, BLOCK, 55) ==
           State(0x3ec45cdb, 0xf5702fdb, 0x101fd28f, 0x886e7a22, 0xe50e1b4f, 0x9f4787c3, 0x529e7d00, 0x49231c1e);
    Step(55);
  }

  lemma {:induction false} Rounds64()
    ensures Rounds(H0, BLOCK, 64) ==
            State(0x506e3058, 0xd39a2165, 0x04d24d6c, 0xb85e2ce9, 0x5ef50f24, 0xfb121210, 0x948d25b6, 0x961f4894)
  {
    hide Rounds, Schedule, Constant;
    Rounds56();
    Constants7();
    Words7();
    Step(56);
    assert Rounds(H0, BLOCK, 57) ==
           State(0xfcd1887b, 0x38cc9913, 0x3ec45cdb, 0xf5702fdb, 0x9b5e906c, 0x54cb266b, 0xe50e1b4f, 0x9f4787c3);
    Step(57);
    assert Rounds(H0, BLOCK, 58) ==
           State(0xc062d46f, 0xfcd1887b, 0x38cc9913, 0x3ec45cdb, 0x7e44008e, 0x9b5e906c, 0x54cb266b, 0xe50e1b4f);
    Step(58);
    assert Rounds(H0, BLOCK, 59) ==
           State(0xffb70472, 0xc062d46f, 0xfcd1887b, 0x38cc9913, 0x6d83bfc6, 0x7e44008e, 0x9b5e906c, 0x54cb266b);
    Step(59);
    assert Rounds(H0, BLOCK, 60) ==
           State(0xb6ae8fff, 0xffb70472, 0xc062d46f, 0xfcd1887b, 0xb21bad3d, 0x6d83bfc6, 0x7e44008e, 0x9b5e906c);
    Step(60);
    assert Rounds(H0, BLOCK, 61) ==
           State(0xb85e2ce9, 0xb6ae8fff, 0xffb70472, 0xc062d46f, 0x961f4894, 0xb21bad3d, 0x6d83bfc6, 0x7e44008e);
    Step(61);
    assert Rounds(H0, BLOCK, 62) ==
           State(0x04d24d6c, 0xb85e2ce9, 0xb6ae8fff, 0xffb70472, 0x948d25b6, 0x961f4894, 0xb21bad3d, 0x6d83bfc6);
    Step(62);
    assert Rounds(H0, BLOCK, 63) ==
           State(0xd39a2165, 0x04d24d6c, 0xb85e2ce9, 0xb6ae8fff, 0xfb121210, 0x948d25b6, 0x961f4894, 0xb21bad3d);
    Step(63);
  }

  lemma Start()
    ensures Rounds(H0, BLOCK, 0) == H0
  {
  }

  const LAST: State :=
    State(0xba7816bf, 0x8f01cfea, 0x414140de, 0x5dae2223, 0xb00361a3, 0x96177a9c, 0xb410ff61, 0xf20015ad)

  lemma {:induction false} Stored()
    ensures Digest(LAST) == DIGEST
  {
    WordsStored();
    hide StoreAll, Store;
    var words := [LAST.a, LAST.b, LAST.c, LAST.d, LAST.e, LAST.f, LAST.g, LAST.h];
    StoreOneMore(words, 0);
    StoreOneMore(words, 1);
    StoreOneMore(words, 2);
    StoreOneMore(words, 3);
    StoreOneMore(words, 4);
    StoreOneMore(words, 5);
    StoreOneMore(words, 6);
    StoreOneMore(words, 7);
    assert words[..8] == words && ([] + [0xba, 0x78, 0x16, 0xbf]) == [0xba, 0x78, 0x16, 0xbf];
  }

  lemma WordsStored()
    ensures Store(0xba7816bf) == [0xba, 0x78, 0x16, 0xbf] && Store(0x8f01cfea) == [0x8f, 0x01, 0xcf, 0xea] &&
            Store(0x414140de) == [0x41, 0x41, 0x40, 0xde] && Store(0x5dae2223) == [0x5d, 0xae, 0x22, 0x23]
    ensures Store(0xb00361a3) == [0xb0, 0x03, 0x61, 0xa3] && Store(0x96177a9c) == [0x96, 0x17, 0x7a, 0x9c] &&
            Store(0xb410ff61) == [0xb4, 0x10, 0xff, 0x61] && Store(0xf20015ad) == [0xf2, 0x00, 0x15, 0xad]
  {
  }

  const DIGEST: seq<bv8> :=
    [0xba, 0x78, 0x16, 0xbf] + [0x8f, 0x01, 0xcf, 0xea] + [0x41, 0x41, 0x40, 0xde] + [0x5d, 0xae, 0x22, 0x23] +
    [0xb0, 0x03, 0x61, 0xa3] + [0x96, 0x17, 0x7a, 0x9c] + [0xb4, 0x10, 0xff, 0x61] + [0xf2, 0x00, 0x15, 0xad]

  lemma {:induction false} Abc()
    ensures Sha256([97, 98, 99]) == DIGEST
  {
    hide Rounds, Digest, Pad;
    Padded();
    Rounds64();
    Stored();
    assert BLOCK[..0] == [] && BLOCK[0..] == BLOCK;
    assert Blocks(BLOCK) == Compress(H0, BLOCK);
  }
}
