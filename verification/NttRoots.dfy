/** The roots of unity of the five moduli: each is squared fifty times, down to -1, with the quotient
    of every reduction given, so that each step is one product of known numbers. */
module NttRoots {
  import opened Powers
  import opened Modular
  import opened Fourier

  /** `x` is congruent to `w^(2^i)`. */
  ghost predicate Reaches(w: int, i: nat, x: int, m: int)
    requires m > 0
  {
    Cong(x, Power(w, Pow2(i)), m)
  }

  lemma {:induction false} Start(w: int, m: int)
    requires m > 0
    ensures Reaches(w, 0, w, m)
  {
    assert Pow2(0) == 1 && Power(w, 1) == w * Power(w, 0);
    CongRefl(w, m);
  }

  lemma {:induction false} Square(w: int, i: nat, x: int, q: int, m: int) returns (y: int)
    requires m > 0 && Reaches(w, i, x, m)
    ensures y == x * x - q * m && Reaches(w, i + 1, y, m)
  {
    y := x * x - q * m;
    var p := Power(w, Pow2(i));
    CongMul(x, p, x, p, m);
    assert Pow2(i + 1) == Pow2(i) + Pow2(i);
    PowerAdd(w, Pow2(i), Pow2(i));
    CongIntro(y, x * x, m, -q);
    CongTrans(y, x * x, p * p, m);
  }

  lemma {:induction false} Finish(w: int, x: int, m: int)
    requires m > 0 && Reaches(w, 50, x, m) && x == m - 1
    ensures RootAt(w, 51, m)
  {
    CongIntro(x, -1, m, 1);
    CongSym(x, Power(w, Pow2(50)), m);
    CongTrans(Power(w, Pow2(50)), x, -1, m);
  }

  lemma {:induction false} Root0()
    ensures var m, w, v := 0x28d8000000000001, 0x1b8ea61034a2bea7, 0x233513af133e13b8;
            RootAt(w, 51, m) && RootAt(v, 51, m) && Cong(w * v, 1, m)
  {
    hide Cong, Power, Reaches, RootAt;
    var m, w, v := 0x28d8000000000001, 0x1b8ea61034a2bea7, 0x233513af133e13b8;
    var x: int := w;
    Start(w, m);
    x := Square(w, 0, x, 0x1297c2fd14e713b1, m);
    x := Square(w, 1, x, 0x7b6057c6835531d, m);
    x := Square(w, 2, x, 0x77e7bd1fdd1d9e1, m);
    x := Square(w, 3, x, 0x773f702d3caeb1, m);
    x := Square(w, 4, x, 0x19afa2ad3efab53f, m);
    x := Square(w, 5, x, 0x1139f25892ca1d0d, m);
    x := Square(w, 6, x, 0x16490be2c93c4, m);
    x := Square(w, 7, x, 0x11c9fffaa98c2894, m);
    x := Square(w, 8, x, 0x45184adf5e2a13c, m);
    x := Square(w, 9, x, 0x1025040e24625c2, m);
    x := Square(w, 10, x, 0x26c22e76ed62742d, m);
    x := Square(w, 11, x, 0x156b9da94221250, m);
    x := Square(w, 12, x, 0x3014cbec8e552f8, m);
    x := Square(w, 13, x, 0x175cf72b39f070, m);
    x := Square(w, 14, x, 0x41392d095740808, m);
    x := Square(w, 15, x, 0x7808dff6dbd692, m);
    x := Square(w, 16, x, 0x219c0299023ea207, m);
    x := Square(w, 17, x, 0x24b12d4f9fb9aac, m);
    x := Square(w, 18, x, 0x5dd3051be743767, m);
    x := Square(w, 19, x, 0x65e4503dc3b0878, m);
    x := Square(w, 20, x, 0x1947c0c5dcfb6de, m);
    x := Square(w, 21, x, 0xeb46de9d41dd941, m);
    x := Square(w, 22, x, 0x34fe885ed72ab66, m);
    x := Square(w, 23, x, 0x2ef12dde4fb230, m);
    x := Square(w, 24, x, 0x12afea54e2db25aa, m);
    x := Square(w, 25, x, 0x12541faa4a84129, m);
    x := Square(w, 26, x, 0x2339a8a64da99594, m);
    x := Square(w, 27, x, 0xa5d5275824bf, m);
    x := Square(w, 28, x, 0x1c1e407f6ef2d28c, m);
    x := Square(w, 29, x, 0x111538f81885ed8a, m);
    x := Square(w, 30, x, 0x1668d57a3a9622c9, m);
    x := Square(w, 31, x, 0x176638d4281125b4, m);
    x := Square(w, 32, x, 0x29bb4fd2ed6723, m);
    x := Square(w, 33, x, 0x4d12a2c0ac587a, m);
    x := Square(w, 34, x, 0x379350af75d4276, m);
    x := Square(w, 35, x, 0x1214984fbbe6b34c, m);
    x := Square(w, 36, x, 0x1275f372c50e3b16, m);
    x := Square(w, 37, x, 0x211e796c0157355, m);
    x := Square(w, 38, x, 0x1cc1225b24a69528, m);
    x := Square(w, 39, x, 0x65dc09cc1487128, m);
    x := Square(w, 40, x, 0xff393b6b90ef9ed, m);
    x := Square(w, 41, x, 0xa4ac0d0d670daf5, m);
    x := Square(w, 42, x, 0xbe134c089b5c2fa, m);
    x := Square(w, 43, x, 0xbfcf1567d7b1683, m);
    x := Square(w, 44, x, 0x42876391c46394, m);
    x := Square(w, 45, x, 0x256ee0bf1834b76e, m);
    x := Square(w, 46, x, 0x260ece403d9f0259, m);
    x := Square(w, 47, x, 0x1ce7c11f47f7d7df, m);
    x := Square(w, 48, x, 0x1fcb4db85c4e1e67, m);
    x := Square(w, 49, x, 0x1dc36c23818e7da4, m);
    Finish(w, x, m);
    CongIntro(w * v, 1, m, 0x17c11c477a916d07);
    InverseRoot(w, v, 51, m);
  }

  lemma {:induction false} Root1()
    ensures var m, w, v := 0x2a88000000000001, 0x21a9762de58206fb, 0x1d13140d1c6f75f1;
            RootAt(w, 51, m) && RootAt(v, 51, m) && Cong(w * v, 1, m)
  {
    hide Cong, Power, Reaches, RootAt;
    var m, w, v := 0x2a88000000000001, 0x21a9762de58206fb, 0x1d13140d1c6f75f1;
    var x: int := w;
    Start(w, m);
    x := Square(w, 0, x, 0x1aa4697428521663, m);
    x := Square(w, 1, x, 0x36c8cf8101265e0, m);
    x := Square(w, 2, x, 0xeef12e746718cc9, m);
    x := Square(w, 3, x, 0xe7860b14ad4b332, m);
    x := Square(w, 4, x, 0x6aae7a2dbbe8108, m);
    x := Square(w, 5, x, 0x5a0bdd3501a1e98, m);
    x := Square(w, 6, x, 0xc5469a5e6d7e960, m);
    x := Square(w, 7, x, 0xe2abb1cca5189a7, m);
    x := Square(w, 8, x, 0x12b06feb19d9027d, m);
    x := Square(w, 9, x, 0x223f41892bca87, m);
    x := Square(w, 10, x, 0x20cca2306958eb0, m);
    x := Square(w, 11, x, 0x45817d4eeea235f, m);
    x := Square(w, 12, x, 0x27bb3699e70ec67, m);
    x := Square(w, 13, x, 0x959a581185b699b, m);
    x := Square(w, 14, x, 0x6d4aa34d2ea7782, m);
    x := Square(w, 15, x, 0x2928cdf1c3c9013b, m);
    x := Square(w, 16, x, 0x5e57b57cee09578, m);
    x := Square(w, 17, x, 0x242b34cde26ec098, m);
    x := Square(w, 18, x, 0x8b037c8f2ece0f5, m);
    x := Square(w, 19, x, 0x95144fc70d93d0e, m);
    x := Square(w, 20, x, 0x1f071c756726db48, m);
    x := Square(w, 21, x, 0x1844a5ab2c25f53a, m);
    x := Square(w, 22, x, 0xec580c46152c2be, m);
    x := Square(w, 23, x, 0xc10231741cd7e61, m);
    x := Square(w, 24, x, 0x6ef3a8f22b3c839, m);
    x := Square(w, 25, x, 0x1e20f9e0a5b0a731, m);
    x := Square(w, 26, x, 0x2762591ccf86170d, m);
    x := Square(w, 27, x, 0x1752f57cdef4696c, m);
    x := Square(w, 28, x, 0x5b363c505fbee20, m);
    x := Square(w, 29, x, 0xb99782593f88af0, m);
    x := Square(w, 30, x, 0x1da01fd54f78cd4, m);
    x := Square(w, 31, x, 0xb8de676756941a4, m);
    x := Square(w, 32, x, 0x11fa98e75b846678, m);
    x := Square(w, 33, x, 0x3a5c244e035f3, m);
    x := Square(w, 34, x, 0x157071bb130cdc6, m);
    x := Square(w, 35, x, 0x23a8393055fe7129, m);
    x := Square(w, 36, x, 0x19bb7178e4d76ad8, m);
    x := Square(w, 37, x, 0x93f7efe342966f8, m);
    x := Square(w, 38, x, 0x2c1828dc17818a, m);
    x := Square(w, 39, x, 0x23937fd70e9772f, m);
    x := Square(w, 40, x, 0x2167a1bf5942710e, m);
    x := Square(w, 41, x, 0x87b22ede865ffbe, m);
    x := Square(w, 42, x, 0x1317df766519b1c2, m);
    x := Square(w, 43, x, 0xf042473d7621789, m);
    x := Square(w, 44, x, 0x63909875a1f02, m);
    x := Square(w, 45, x, 0x2a213cd547682ee, m);
    x := Square(w, 46, x, 0x68aee39c0bdf3dd, m);
    x := Square(w, 47, x, 0x334253918acf9cc, m);
    x := Square(w, 48, x, 0x9ce2302ee2968e0, m);
    x := Square(w, 49, x, 0x1d8402be0b66e900, m);
    Finish(w, x, m);
    CongIntro(w * v, 1, m, 0x1702edfcf76e494a);
    InverseRoot(w, v, 51, m);
  }

  lemma {:induction false} Root2()
    ensures var m, w, v := 0x2ed8000000000001, 0x02ca782f0756a8ea, 0x12cde57f97e3eeda;
            RootAt(w, 51, m) && RootAt(v, 51, m) && Cong(w * v, 1, m)
  {
    hide Cong, Power, Reaches, RootAt;
    var m, w, v := 0x2ed8000000000001, 0x02ca782f0756a8ea, 0x12cde57f97e3eeda;
    var x: int := w;
    Start(w, m);
    x := Square(w, 0, x, 0x2a9138290289e3, m);
    x := Square(w, 1, x, 0x15b43ab8fb19cba, m);
    x := Square(w, 2, x, 0x232656cbc8b76f91, m);
    x := Square(w, 3, x, 0x69bf9857912a08e, m);
    x := Square(w, 4, x, 0x56833141a6d2471, m);
    x := Square(w, 5, x, 0x3e74c443579460, m);
    x := Square(w, 6, x, 0x12fc6096374551a8, m);
    x := Square(w, 7, x, 0x194cce3a3522313, m);
    x := Square(w, 8, x, 0x6b58b96f9391, m);
    x := Square(w, 9, x, 0x34f5a155f161653, m);
    x := Square(w, 10, x, 0xcc7f734b268597, m);
    x := Square(w, 11, x, 0x12419469699cb6d6, m);
    x := Square(w, 12, x, 0x9d4cb56b70fd217, m);
    x := Square(w, 13, x, 0xa17f5a65a5375e0, m);
    x := Square(w, 14, x, 0xc95a8aca70bf170, m);
    x := Square(w, 15, x, 0x1e1685b1c7c58f2, m);
    x := Square(w, 16, x, 0x11f951327d439ef1, m);
    x := Square(w, 17, x, 0x5fa7fae5441c7ca, m);
    x := Square(w, 18, x, 0x3c77577b14959, m);
    x := Square(w, 19, x, 0x28ae86eb35481835, m);
    x := Square(w, 20, x, 0x215530d8a0d41330, m);
    x := Square(w, 21, x, 0x2425d8c084958b9b, m);
    x := Square(w, 22, x, 0x29a660e4959ca66, m);
    x := Square(w, 23, x, 0x14e959da15f83d63, m);
    x := Square(w, 24, x, 0x68eb5deac52cd10, m);
    x := Square(w, 25, x, 0x230ab917ea074146, m);
    x := Square(w, 26, x, 0x7e4b13caea6d820, m);
    x := Square(w, 27, x, 0x7edc63f02ddd9ad, m);
    x := Square(w, 28, x, 0x9b3adef1db2cce4, m);
    x := Square(w, 29, x, 0xac9b6832eba6b8a, m);
    x := Square(w, 30, x, 0x73f478a0570c6f7, m);
    x := Square(w, 31, x, 0x2f79324e0e91, m);
    x := Square(w, 32, x, 0x1f433a80f4d19c0b, m);
    x := Square(w, 33, x, 0x328670bfac03098, m);
    x := Square(w, 34, x, 0x220dec49697daed, m);
    x := Square(w, 35, x, 0xcacf8778530a836, m);
    x := Square(w, 36, x, 0xa1bd2b2274b78a9, m);
    x := Square(w, 37, x, 0x3435009f8a1e5d, m);
    x := Square(w, 38, x, 0x2985ebfc378996af, m);
    x := Square(w, 39, x, 0x2a745769a03a9036, m);
    x := Square(w, 40, x, 0x247b080128d4e56c, m);
    x := Square(w, 41, x, 0x2de7dcf643562f2e, m);
    x := Square(w, 42, x, 0x5057025fcdaf69, m);
    x := Square(w, 43, x, 0x63880ec4f95e8cd, m);
    x := Square(w, 44, x, 0x5112a546a4fdcee, m);
    x := Square(w, 45, x, 0x1a112d609b88b882, m);
    x := Square(w, 46, x, 0xdd137f6e5926260, m);
    x := Square(w, 47, x, 0x92debd0fe2fe6fe, m);
    x := Square(w, 48, x, 0x15815529e73eb013, m);
    x := Square(w, 49, x, 0xa4201d269137b64, m);
    Finish(w, x, m);
    CongIntro(w * v, 1, m, 0x11ece6e9e536343);
    InverseRoot(w, v, 51, m);
  }

  lemma {:induction false} Root3()
    ensures var m, w, v := 0x3508000000000001, 0x278384537a3e50a1, 0x0d6149e23cbe654f;
            RootAt(w, 51, m) && RootAt(v, 51, m) && Cong(w * v, 1, m)
  {
    hide Cong, Power, Reaches, RootAt;
    var m, w, v := 0x3508000000000001, 0x278384537a3e50a1, 0x0d6149e23cbe654f;
    var x: int := w;
    Start(w, m);
    x := Square(w, 0, x, 0x1d7119d615335238, m);
    x := Square(w, 1, x, 0x3712424ec964e9c, m);
    x := Square(w, 2, x, 0xaa806a4183f1e92, m);
    x := Square(w, 3, x, 0x122a455442c77e89, m);
    x := Square(w, 4, x, 0x8c28afec6a11b70, m);
    x := Square(w, 5, x, 0x336f62e8213281c2, m);
    x := Square(w, 6, x, 0x2a4b68a1c73d711, m);
    x := Square(w, 7, x, 0x2cf452f3e2eea299, m);
    x := Square(w, 8, x, 0x54d1dcf29e29c33, m);
    x := Square(w, 9, x, 0x31dfa044e99273b7, m);
    x := Square(w, 10, x, 0x2e2453f479b10, m);
    x := Square(w, 11, x, 0x62ad0c9039150d5, m);
    x := Square(w, 12, x, 0x10bc401cf39eab1e, m);
    x := Square(w, 13, x, 0x1a9c0c51252b0947, m);
    x := Square(w, 14, x, 0x335eef01f61f28b3, m);
    x := Square(w, 15, x, 0x23f34561d179ba3a, m);
    x := Square(w, 16, x, 0x1e590c516e2902a, m);
    x := Square(w, 17, x, 0x561a33da7b47e2b, m);
    x := Square(w, 18, x, 0x1da592be93f4e7c7, m);
    x := Square(w, 19, x, 0x229d8808712a8342, m);
    x := Square(w, 20, x, 0xc40fec25272b917, m);
    x := Square(w, 21, x, 0x281e1a491836515, m);
    x := Square(w, 22, x, 0x999dedbc3ac0abb, m);
    x := Square(w, 23, x, 0x1156d2318e036b04, m);
    x := Square(w, 24, x, 0x4136f76f3cdd0eb, m);
    x := Square(w, 25, x, 0x10e52f46a5aa878, m);
    x := Square(w, 26, x, 0x13664ea2e0cb481b, m);
    x := Square(w, 27, x, 0xb9c74854a48892c, m);
    x := Square(w, 28, x, 0x318fb34a18253d8a, m);
    x := Square(w, 29, x, 0x17b0cb8f853012c, m);
    x := Square(w, 30, x, 0xd826a2a9514d9e9, m);
    x := Square(w, 31, x, 0x5f31945ac7895dd, m);
    x := Square(w, 32, x, 0x133e4c2985a0f26, m);
    x := Square(w, 33, x, 0x19a51d9a2de59860, m);
    x := Square(w, 34, x, 0x4566d9aba0c5b29, m);
    x := Square(w, 35, x, 0x59bc0bf829fd778, m);
    x := Square(w, 36, x, 0x1373efa97e41e84, m);
    x := Square(w, 37, x, 0x32a95f1d3adcbe1b, m);
    x := Square(w, 38, x, 0x46db30f0684164f, m);
    x := Square(w, 39, x, 0x2d17f83d0fa4b19, m);
    x := Square(w, 40, x, 0x19260f15407cbb8f, m);
    x := Square(w, 41, x, 0x2712c249e93a9273, m);
    x := Square(w, 42, x, 0x2282ae46c1b0ac28, m);
    x := Square(w, 43, x, 0x2e497665811f311, m);
    x := Square(w, 44, x, 0x16b9c5ce27feff31, m);
    x := Square(w, 45, x, 0x6059526c78a6b4, m);
    x := Square(w, 46, x, 0x141f05228d55911, m);
    x := Square(w, 47, x, 0x656c55c99b7c36a, m);
    x := Square(w, 48, x, 0x69a85c1e58ad42b, m);
    x := Square(w, 49, x, 0x950818275b1a6a4, m);
    Finish(w, x, m);
    CongIntro(w * v, 1, m, 0x9f83144e28866ae);
    InverseRoot(w, v, 51, m);
  }

  lemma {:induction false} Root4()
    ensures var m, w, v := 0x3aa8000000000001, 0x106e13fee74ce0ab, 0x36cd204f522a1379;
            RootAt(w, 51, m) && RootAt(v, 51, m) && Cong(w * v, 1, m)
  {
    hide Cong, Power, Reaches, RootAt;
    var m, w, v := 0x3aa8000000000001, 0x106e13fee74ce0ab, 0x36cd204f522a1379;
    var x: int := w;
    Start(w, m);
    x := Square(w, 0, x, 0x49a26465584d00d, m);
    x := Square(w, 1, x, 0x1f180bfb966d0b25, m);
    x := Square(w, 2, x, 0x18f2bb1b6ccbd78, m);
    x := Square(w, 3, x, 0x536dade4ce3f835, m);
    x := Square(w, 4, x, 0x10bf987654020ad, m);
    x := Square(w, 5, x, 0x2ee87bd3e37e898e, m);
    x := Square(w, 6, x, 0x446cbca37f6a825, m);
    x := Square(w, 7, x, 0xa281405d3271d3c, m);
    x := Square(w, 8, x, 0x303bfeffc745261f, m);
    x := Square(w, 9, x, 0x6d3ea1294a69ae, m);
    x := Square(w, 10, x, 0x6c30ad4ee4051bb, m);
    x := Square(w, 11, x, 0x3527d6e3ca6fa0c, m);
    x := Square(w, 12, x, 0x383ada4531f2f7, m);
    x := Square(w, 13, x, 0xcffbaaa2982602, m);
    x := Square(w, 14, x, 0x7ba51310521dbb7, m);
    x := Square(w, 15, x, 0x8894963aa34dfa6, m);
    x := Square(w, 16, x, 0x1d1c6af7df28d084, m);
    x := Square(w, 17, x, 0x22a0a32bc9f6d, m);
    x := Square(w, 18, x, 0x37015f8117780c40, m);
    x := Square(w, 19, x, 0x34c68b1073fba672, m);
    x := Square(w, 20, x, 0x8e318858bd9e0de, m);
    x := Square(w, 21, x, 0x138eb24e5629c75b, m);
    x := Square(w, 22, x, 0x351e60b1ffa0284a, m);
    x := Square(w, 23, x, 0x319db35ffb427d19, m);
    x := Square(w, 24, x, 0x34ce9423af529dc9, m);
    x := Square(w, 25, x, 0x1d9c9c1c42abfde, m);
    x := Square(w, 26, x, 0xc65ade3c17645d1, m);
    x := Square(w, 27, x, 0x98ff642e4529f49, m);
    x := Square(w, 28, x, 0xf38dd07a0f10125, m);
    x := Square(w, 29, x, 0x401c51b8087d17a, m);
    x := Square(w, 30, x, 0xff61ce5852ddc04, m);
    x := Square(w, 31, x, 0x21d792124378ca5e, m);
    x := Square(w, 32, x, 0xd1ccffab9a653f6, m);
    x := Square(w, 33, x, 0x129e393811825974, m);
    x := Square(w, 34, x, 0x2a4bbf1d34de8410, m);
    x := Square(w, 35, x, 0x14e6a09662de5f8d, m);
    x := Square(w, 36, x, 0x210442fd7219c1c0, m);
    x := Square(w, 37, x, 0xc8605d1af1302c8, m);
    x := Square(w, 38, x, 0x398caa5591c3f8f4, m);
    x := Square(w, 39, x, 0x35ba83f097128bb6, m);
    x := Square(w, 40, x, 0x232e720d3881ea89, m);
    x := Square(w, 41, x, 0x1f6ffb58e8ca0bc1, m);
    x := Square(w, 42, x, 0x24d5b1734639e683, m);
    x := Square(w, 43, x, 0x2d657b3780586d67, m);
    x := Square(w, 44, x, 0x3460c029f2345d96, m);
    x := Square(w, 45, x, 0x24266b1e165ec66, m);
    x := Square(w, 46, x, 0xc3f487f7ba5ed73, m);
    x := Square(w, 47, x, 0x1431724c5c2ea4, m);
    x := Square(w, 48, x, 0x2e366ca6a720e0b6, m);
    x := Square(w, 49, x, 0xaaef5e24062e9, m);
    Finish(w, x, m);
    CongIntro(w * v, 1, m, 0xf59a5feaa10e1d2);
    InverseRoot(w, v, 51, m);
  }
}
