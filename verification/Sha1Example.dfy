/** The example of appendix A of FIPS PUB 180-1: the digest of "abc", word by word and
    round by round. */
module Sha1Example {
  import opened Sha1Standard

  /** The words of the one block of the example. */
  ghost predicate Example(first: nat -> Word) {
    first(0) == 0x61626380 && first(15) == 0x00000018 && forall t: nat :: 0 < t < 15 ==> first(t) == 0
  }

  lemma Next(first: nat -> Word, t: nat, x: Word, y: Word, z: Word, u: Word, r: Word)
    requires t >= 16 && Expanded(first, t - 3) == x && Expanded(first, t - 8) == y
    requires Expanded(first, t - 14) == z && Expanded(first, t - 16) == u && Mix(x, y, z, u) == r
    ensures Expanded(first, t) == r
  {
  }

  lemma Words0(first: nat -> Word)
    requires Example(first)
    ensures Expanded(first, 0) == 0x61626380 && Expanded(first, 1) == 0x00000000
    ensures Expanded(first, 2) == 0x00000000 && Expanded(first, 3) == 0x00000000
    ensures Expanded(first, 4) == 0x00000000 && Expanded(first, 5) == 0x00000000
    ensures Expanded(first, 6) == 0x00000000 && Expanded(first, 7) == 0x00000000
    ensures Expanded(first, 8) == 0x00000000 && Expanded(first, 9) == 0x00000000
    ensures Expanded(first, 10) == 0x00000000 && Expanded(first, 11) == 0x00000000
    ensures Expanded(first, 12) == 0x00000000 && Expanded(first, 13) == 0x00000000
    ensures Expanded(first, 14) == 0x00000000 && Expanded(first, 15) == 0x00000018
  {
  }

  lemma Words1(first: nat -> Word)
    requires Example(first)
    ensures Expanded(first, 16) == 0xC2C4C700 && Expanded(first, 17) == 0x00000000
    ensures Expanded(first, 18) == 0x00000030 && Expanded(first, 19) == 0x85898E01
    ensures Expanded(first, 20) == 0x00000000 && Expanded(first, 21) == 0x00000060
    ensures Expanded(first, 22) == 0x0B131C03 && Expanded(first, 23) == 0x00000030
    ensures Expanded(first, 24) == 0x85898EC1 && Expanded(first, 25) == 0x16263806
    ensures Expanded(first, 26) == 0x00000000 && Expanded(first, 27) == 0x00000180
    ensures Expanded(first, 28) == 0x2C4C700C && Expanded(first, 29) == 0x000000F0
    ensures Expanded(first, 30) == 0x93AFB507 && Expanded(first, 31) == 0x5898E048
  {
    Words0(first);
    Next(first, 16, 0x00000000, 0x00000000, 0x00000000, 0x61626380, 0xC2C4C700);
    Next(first, 17, 0x00000000, 0x00000000, 0x00000000, 0x00000000, 0x00000000);
    Next(first, 18, 0x00000018, 0x00000000, 0x00000000, 0x00000000, 0x00000030);
    Next(first, 19, 0xC2C4C700, 0x00000000, 0x00000000, 0x00000000, 0x85898E01);
    Next(first, 20, 0x00000000, 0x00000000, 0x00000000, 0x00000000, 0x00000000);
    Next(first, 21, 0x00000030, 0x00000000, 0x00000000, 0x00000000, 0x00000060);
    Next(first, 22, 0x85898E01, 0x00000000, 0x00000000, 0x00000000, 0x0B131C03);
    Next(first, 23, 0x00000000, 0x00000018, 0x00000000, 0x00000000, 0x00000030);
    Next(first, 24, 0x00000060, 0xC2C4C700, 0x00000000, 0x00000000, 0x85898EC1);
    Next(first, 25, 0x0B131C03, 0x00000000, 0x00000000, 0x00000000, 0x16263806);
    Next(first, 26, 0x00000030, 0x00000030, 0x00000000, 0x00000000, 0x00000000);
    Next(first, 27, 0x85898EC1, 0x85898E01, 0x00000000, 0x00000000, 0x00000180);
    Next(first, 28, 0x16263806, 0x00000000, 0x00000000, 0x00000000, 0x2C4C700C);
    Next(first, 29, 0x00000000, 0x00000060, 0x00000018, 0x00000000, 0x000000F0);
    Next(first, 30, 0x00000180, 0x0B131C03, 0xC2C4C700, 0x00000000, 0x93AFB507);
    Next(first, 31, 0x2C4C700C, 0x00000030, 0x00000000, 0x00000018, 0x5898E048);
  }

  lemma Words2(first: nat -> Word)
    requires Example(first)
    ensures Expanded(first, 32) == 0x8E9A9202 && Expanded(first, 33) == 0x00000600
    ensures Expanded(first, 34) == 0xB131C0F0 && Expanded(first, 35) == 0x16263BC6
    ensures Expanded(first, 36) == 0x4EBED41E && Expanded(first, 37) == 0x626380A1
    ensures Expanded(first, 38) == 0x16263806 && Expanded(first, 39) == 0x000018C0
    ensures Expanded(first, 40) == 0xD2E138C4 && Expanded(first, 41) == 0x00000F00
    ensures Expanded(first, 42) == 0x3AFB5079 && Expanded(first, 43) == 0x898E04E5
    ensures Expanded(first, 44) == 0xE2BA3C2B && Expanded(first, 45) == 0x000060C0
    ensures Expanded(first, 46) == 0x053A37CD && Expanded(first, 47) == 0x74458547
  {
    Words1(first);
    Next(first, 32, 0x000000F0, 0x85898EC1, 0x00000030, 0xC2C4C700, 0x8E9A9202);
    Next(first, 33, 0x93AFB507, 0x16263806, 0x85898E01, 0x00000000, 0x00000600);
    Next(first, 34, 0x5898E048, 0x00000000, 0x00000000, 0x00000030, 0xB131C0F0);
    Next(first, 35, 0x8E9A9202, 0x00000180, 0x00000060, 0x85898E01, 0x16263BC6);
    Next(first, 36, 0x00000600, 0x2C4C700C, 0x0B131C03, 0x00000000, 0x4EBED41E);
    Next(first, 37, 0xB131C0F0, 0x000000F0, 0x00000030, 0x00000060, 0x626380A1);
    Next(first, 38, 0x16263BC6, 0x93AFB507, 0x85898EC1, 0x0B131C03, 0x16263806);
    Next(first, 39, 0x4EBED41E, 0x5898E048, 0x16263806, 0x00000030, 0x000018C0);
    Next(first, 40, 0x626380A1, 0x8E9A9202, 0x00000000, 0x85898EC1, 0xD2E138C4);
    Next(first, 41, 0x16263806, 0x00000600, 0x00000180, 0x16263806, 0x00000F00);
    Next(first, 42, 0x000018C0, 0xB131C0F0, 0x2C4C700C, 0x00000000, 0x3AFB5079);
    Next(first, 43, 0xD2E138C4, 0x16263BC6, 0x000000F0, 0x00000180, 0x898E04E5);
    Next(first, 44, 0x00000F00, 0x4EBED41E, 0x93AFB507, 0x2C4C700C, 0xE2BA3C2B);
    Next(first, 45, 0x3AFB5079, 0x626380A1, 0x5898E048, 0x000000F0, 0x000060C0);
    Next(first, 46, 0x898E04E5, 0x16263806, 0x8E9A9202, 0x93AFB507, 0x053A37CD);
    Next(first, 47, 0xE2BA3C2B, 0x000018C0, 0x00000600, 0x5898E048, 0x74458547);
  }

  lemma Words3(first: nat -> Word)
    requires Example(first)
    ensures Expanded(first, 48) == 0xDA9415ED && Expanded(first, 49) == 0x26380A16
    ensures Expanded(first, 50) == 0x626383A1 && Expanded(first, 51) == 0x4EBF54DE
    ensures Expanded(first, 52) == 0x3835B44B && Expanded(first, 53) == 0x0000F600
    ensures Expanded(first, 54) == 0x1E84C7A3 && Expanded(first, 55) == 0x98E04D98
    ensures Expanded(first, 56) == 0x651D16A0 && Expanded(first, 57) == 0x62658CA1
    ensures Expanded(first, 58) == 0x458544D6 && Expanded(first, 59) == 0x44584CB7
    ensures Expanded(first, 60) == 0x7BA06619 && Expanded(first, 61) == 0x6380AEA2
    ensures Expanded(first, 62) == 0x0AE55269 && Expanded(first, 63) == 0x627B49A1
  {
    Words2(first);
    Next(first, 48, 0x000060C0, 0xD2E138C4, 0xB131C0F0, 0x8E9A9202, 0xDA9415ED);
    Next(first, 49, 0x053A37CD, 0x00000F00, 0x16263BC6, 0x00000600, 0x26380A16);
    Next(first, 50, 0x74458547, 0x3AFB5079, 0x4EBED41E, 0xB131C0F0, 0x626383A1);
    Next(first, 51, 0xDA9415ED, 0x898E04E5, 0x626380A1, 0x16263BC6, 0x4EBF54DE);
    Next(first, 52, 0x26380A16, 0xE2BA3C2B, 0x16263806, 0x4EBED41E, 0x3835B44B);
    Next(first, 53, 0x626383A1, 0x000060C0, 0x000018C0, 0x626380A1, 0x0000F600);
    Next(first, 54, 0x4EBF54DE, 0x053A37CD, 0xD2E138C4, 0x16263806, 0x1E84C7A3);
    Next(first, 55, 0x3835B44B, 0x74458547, 0x00000F00, 0x000018C0, 0x98E04D98);
    Next(first, 56, 0x0000F600, 0xDA9415ED, 0x3AFB5079, 0xD2E138C4, 0x651D16A0);
    Next(first, 57, 0x1E84C7A3, 0x26380A16, 0x898E04E5, 0x00000F00, 0x62658CA1);
    Next(first, 58, 0x98E04D98, 0x626383A1, 0xE2BA3C2B, 0x3AFB5079, 0x458544D6);
    Next(first, 59, 0x651D16A0, 0x4EBF54DE, 0x000060C0, 0x898E04E5, 0x44584CB7);
    Next(first, 60, 0x62658CA1, 0x3835B44B, 0x053A37CD, 0xE2BA3C2B, 0x7BA06619);
    Next(first, 61, 0x458544D6, 0x0000F600, 0x74458547, 0x000060C0, 0x6380AEA2);
    Next(first, 62, 0x44584CB7, 0x1E84C7A3, 0xDA9415ED, 0x053A37CD, 0x0AE55269);
    Next(first, 63, 0x7BA06619, 0x98E04D98, 0x26380A16, 0x74458547, 0x627B49A1);
  }

  lemma Words4(first: nat -> Word)
    requires Example(first)
    ensures Expanded(first, 64) == 0x7CD45C9D && Expanded(first, 65) == 0x000F0000
    ensures Expanded(first, 66) == 0xFB50753A && Expanded(first, 67) == 0xEC6765E8
    ensures Expanded(first, 68) == 0xBA3C2BE2 && Expanded(first, 69) == 0x0060C000
    ensures Expanded(first, 70) == 0x3A37CD05 && Expanded(first, 71) == 0x458546F4
    ensures Expanded(first, 72) == 0xB8599DD6 && Expanded(first, 73) == 0x380A1A26
    ensures Expanded(first, 74) == 0x01E02203 && Expanded(first, 75) == 0xE7CC3456
    ensures Expanded(first, 76) == 0xE6E60B69 && Expanded(first, 77) == 0x00F60A00
    ensures Expanded(first, 78) == 0x5795EF4F && Expanded(first, 79) == 0x822E0879
  {
    Words3(first);
    Next(first, 64, 0x6380AEA2, 0x651D16A0, 0x626383A1, 0xDA9415ED, 0x7CD45C9D);
    Next(first, 65, 0x0AE55269, 0x62658CA1, 0x4EBF54DE, 0x26380A16, 0x000F0000);
    Next(first, 66, 0x627B49A1, 0x458544D6, 0x3835B44B, 0x626383A1, 0xFB50753A);
    Next(first, 67, 0x7CD45C9D, 0x44584CB7, 0x0000F600, 0x4EBF54DE, 0xEC6765E8);
    Next(first, 68, 0x000F0000, 0x7BA06619, 0x1E84C7A3, 0x3835B44B, 0xBA3C2BE2);
    Next(first, 69, 0xFB50753A, 0x6380AEA2, 0x98E04D98, 0x0000F600, 0x0060C000);
    Next(first, 70, 0xEC6765E8, 0x0AE55269, 0x651D16A0, 0x1E84C7A3, 0x3A37CD05);
    Next(first, 71, 0xBA3C2BE2, 0x627B49A1, 0x62658CA1, 0x98E04D98, 0x458546F4);
    Next(first, 72, 0x0060C000, 0x7CD45C9D, 0x458544D6, 0x651D16A0, 0xB8599DD6);
    Next(first, 73, 0x3A37CD05, 0x000F0000, 0x44584CB7, 0x62658CA1, 0x380A1A26);
    Next(first, 74, 0x458546F4, 0xFB50753A, 0x7BA06619, 0x458544D6, 0x01E02203);
    Next(first, 75, 0xB8599DD6, 0xEC6765E8, 0x6380AEA2, 0x44584CB7, 0xE7CC3456);
    Next(first, 76, 0x380A1A26, 0xBA3C2BE2, 0x0AE55269, 0x7BA06619, 0xE6E60B69);
    Next(first, 77, 0x01E02203, 0x0060C000, 0x627B49A1, 0x6380AEA2, 0x00F60A00);
    Next(first, 78, 0xE7CC3456, 0x3A37CD05, 0x7CD45C9D, 0x0AE55269, 0x5795EF4F);
    Next(first, 79, 0xE6E60B69, 0x458546F4, 0x000F0000, 0x627B49A1, 0x822E0879);
  }

  ghost predicate Expands(first: nat -> Word, w: nat -> Word) {
    forall t: nat :: w(t) == Expanded(first, t)
  }

  /** One round, with its intermediate results: `s` and `r` are the shifted words, `f` is
      the value of the function, `a` the sum. */
  lemma Step(h: Digest, w: nat -> Word, t: nat, g: Digest, x: Word, s: Word, f: Word, r: Word, a: Word)
    returns (g': Digest)
    requires Rounds(h, w, t) == g && w(t) == x
    requires CircularShift(5, g.a) == s && F(t, g.b, g.c, g.d) == f && CircularShift(30, g.b) == r
    requires Plus(Plus(Plus(Plus(s, f), g.e), x), K(t)) == a
    ensures g' == Digest(a, g.a, r, g.c, g.d) && Rounds(h, w, t + 1) == g'
  {
    g' := Digest(a, g.a, r, g.c, g.d);
  }

  lemma Rounds0(first: nat -> Word, w: nat -> Word)
    requires Example(first) && Expands(first, w)
    ensures Rounds(INITIAL, w, 16) == Digest(0x20BDD62F, 0x196BEE77, 0x644A3DA5, 0x1181ED99, 0x18C623F9)
  {
    Words0(first);
    var g := Digest(0x67452301, 0xEFCDAB89, 0x98BADCFE, 0x10325476, 0xC3D2E1F0);
    g := Step(INITIAL, w, 0, g, 0x61626380, 0xE8A4602C, 0x98BADCFE, 0x7BF36AE2, 0x0116FC33);
    g := Step(INITIAL, w, 1, g, 0x00000000, 0x22DF8660, 0xFBFBFEFE, 0x59D148C0, 0x8990536D);
    g := Step(INITIAL, w, 2, g, 0x00000000, 0x320A6DB1, 0x7BF14AC0, 0xC045BF0C, 0xA1390F08);
    g := Step(INITIAL, w, 3, g, 0x00000000, 0x2721E114, 0xD0411B8C, 0x626414DB, 0xCDD8E11B);
    g := Step(INITIAL, w, 4, g, 0x00000000, 0xBB1C2379, 0x6064B40C, 0x284E43C2, 0xCFD499DE);
    g := Step(INITIAL, w, 5, g, 0x00000000, 0xFA933BD9, 0x2A6C55C2, 0xF3763846, 0x3FC7CA40);
    g := Step(INITIAL, w, 6, g, 0x00000000, 0xF8F94807, 0xE35E5A46, 0xB3F52677, 0x993E30C1);
    g := Step(INITIAL, w, 7, g, 0x00000000, 0x27C61833, 0xF3F53246, 0x0FF1F290, 0x9E8C07D4);
    g := Step(INITIAL, w, 8, g, 0x00000000, 0xD180FA93, 0x2BF136B6, 0x664F8C30, 0x4B6AE328);
    g := Step(INITIAL, w, 9, g, 0x00000000, 0x6D5C6509, 0x077DF410, 0x27A301F5, 0x8351F929);
    g := Step(INITIAL, w, 10, g, 0x00000000, 0x6A3F2530, 0x27270D30, 0x12DAB8CA, 0xFBDA9E89);
    g := Step(INITIAL, w, 11, g, 0x00000000, 0x7B53D13F, 0x26F2B8DC, 0x60D47E4A, 0x63188FE4);
    g := Step(INITIAL, w, 12, g, 0x00000000, 0x6311FC8C, 0x60D03E4A, 0x7EF6A7A2, 0x4607B664);
    g := Step(INITIAL, w, 13, g, 0x00000000, 0xC0F6CC88, 0x62D4F7AA, 0x18C623F9, 0x9128F695);
    g := Step(INITIAL, w, 14, g, 0x00000000, 0x251ED2B2, 0x38F623E2, 0x1181ED99, 0x196BEE77);
    g := Step(INITIAL, w, 15, g, 0x00000018, 0x2D7DCEE3, 0x19C6E5F9, 0x644A3DA5, 0x20BDD62F);
  }

  lemma Rounds1(first: nat -> Word, w: nat -> Word)
    requires Example(first) && Expands(first, w)
    ensures Rounds(INITIAL, w, 32) == Digest(0x3B845D33, 0x1267B407, 0x717EEBD7, 0xA0DC2D4B, 0xD2AA1365)
  {
    Words1(first);
    Rounds0(first, w);
    var g := Digest(0x20BDD62F, 0x196BEE77, 0x644A3DA5, 0x1181ED99, 0x18C623F9);
    g := Step(INITIAL, w, 16, g, 0xC2C4C700, 0x17BAC5E4, 0x00CA2DAD, 0xC65AFB9D, 0x4E925823);
    g := Step(INITIAL, w, 17, g, 0x00000000, 0xD24B0469, 0x445AFB8D, 0xC82F758B, 0x82AA6728);
    g := Step(INITIAL, w, 18, g, 0x00000030, 0x554CE510, 0xC84AF39F, 0xD3A49608, 0xDC64901D);
    g := Step(INITIAL, w, 19, g, 0x85898E01, 0x8C9203BB, 0xCAA5168B, 0x20AA99CA, 0xFD9E1D7D);
    g := Step(INITIAL, w, 20, g, 0x00000000, 0xB3C3AFBF, 0x2F6A9FDF, 0x77192407, 0x1A37B0CA);
    g := Step(INITIAL, w, 21, g, 0x00000060, 0x46F61943, 0xAA2DA0B0, 0x7F67875F, 0x33A23BFC);
    g := Step(INITIAL, w, 22, g, 0x0B131C03, 0x74477F86, 0x12491392, 0x868DEC32, 0x21283486);
    g := Step(INITIAL, w, 23, g, 0x00000030, 0x250690C4, 0xCA485091, 0x0CE88EFF, 0xD541F12D);
    g := Step(INITIAL, w, 24, g, 0x85898EC1, 0xA83E25BA, 0xAB4D564B, 0x884A0D21, 0xC7567DC6);
    g := Step(INITIAL, w, 25, g, 0x16263806, 0xEACFB8D8, 0x51E372F3, 0x75507C4B, 0x48413BA4);
    g := Step(INITIAL, w, 26, g, 0x00000000, 0x08277489, 0x3A4C0CAC, 0xB1D59F71, 0xBE35FBD5);
    g := Step(INITIAL, w, 27, g, 0x00000180, 0xC6BF7AB7, 0x8CC4D89E, 0x12104EE9, 0x4AA84D97);
    g := Step(INITIAL, w, 28, g, 0x2C4C700C, 0x5509B2E9, 0x1DF02A4D, 0x6F8D7EF5, 0x8370B52E);
    g := Step(INITIAL, w, 29, g, 0x000000F0, 0x6E16A5D0, 0x37357D8B, 0xD2AA1365, 0xC5FBAF5D);
    g := Step(INITIAL, w, 30, g, 0x93AFB507, 0xBF75EBB8, 0x3E57D8BE, 0xA0DC2D4B, 0x1267B407);
    g := Step(INITIAL, w, 31, g, 0x5898E048, 0x4CF680E2, 0xB78D9173, 0x717EEBD7, 0x3B845D33);
  }

  lemma Rounds2(first: nat -> Word, w: nat -> Word)
    requires Example(first) && Expands(first, w)
    ensures Rounds(INITIAL, w, 48) == Digest(0xBEAD02CA, 0xA01B846C, 0x8714787C, 0x503CA382, 0xFB86C6AB)
  {
    Words2(first);
    Rounds1(first, w);
    var g := Digest(0x3B845D33, 0x1267B407, 0x717EEBD7, 0xA0DC2D4B, 0xD2AA1365);
    g := Step(INITIAL, w, 32, g, 0x8E9A9202, 0x708BA667, 0xC3C5729B, 0xC499ED01, 0x046FAA0A);
    g := Step(INITIAL, w, 33, g, 0x00000600, 0x8DF54140, 0x8E635BE5, 0xCEE1174C, 0x2C0EBC11);
    g := Step(INITIAL, w, 34, g, 0xB131C0F0, 0x81D78225, 0x0E175047, 0x811BEA82, 0x21796AD4);
    g := Step(INITIAL, w, 35, g, 0x16263BC6, 0x2F2D5A84, 0x63F441DF, 0x4B03AF04, 0xDCBBB0CB);
    g := Step(INITIAL, w, 36, g, 0x4EBED41E, 0x9776197B, 0xEB612F52, 0x085E5AB5, 0x0F511FD8);
    g := Step(INITIAL, w, 37, g, 0x626380A1, 0xEA23FB01, 0x9FE6457A, 0xF72EEC32, 0xDC63973F);
    g := Step(INITIAL, w, 38, g, 0x16263806, 0x8C72E7FB, 0xF021A95F, 0x03D447F6, 0x4C986405);
    g := Step(INITIAL, w, 39, g, 0x000018C0, 0x930C80A9, 0x28993CFB, 0xF718E5CF, 0x32DE1CBA);
    g := Step(INITIAL, w, 40, g, 0xD2E138C4, 0x5BC39746, 0x479865C7, 0x53261901, 0xFC87DEDF);
    g := Step(INITIAL, w, 41, g, 0x00000F00, 0x90FBDBFF, 0x731E1D8B, 0x8CB7872E, 0x970A0D5C);
    g := Step(INITIAL, w, 42, g, 0x3AFB5079, 0xE141AB92, 0xDCA79F0F, 0xFF21F7B7, 0x7F193DC5);
    g := Step(INITIAL, w, 43, g, 0x898E04E5, 0xE327B8AF, 0x9F23873E, 0x25C28357, 0xEE1B1AAF);
    g := Step(INITIAL, w, 44, g, 0xE2BA3C2B, 0xC36355FD, 0x7F01B7D7, 0x5FC64F71, 0x40F28E09);
    g := Step(INITIAL, w, 45, g, 0x000060C0, 0x1E51C128, 0x6FC20B77, 0xFB86C6AB, 0x1C51E1F2);
    g := Step(INITIAL, w, 46, g, 0x053A37CD, 0x8A3C3E43, 0x5BC6CE29, 0x503CA382, 0xA01B846C);
    g := Step(INITIAL, w, 47, g, 0x74458547, 0x03708D94, 0x5814E3A2, 0x8714787C, 0xBEAD02CA);
  }

  lemma Rounds3(first: nat -> Word, w: nat -> Word)
    requires Example(first) && Expands(first, w)
    ensures Rounds(INITIAL, w, 64) == Digest(0x6B61C9E1, 0xB66C020B, 0x9523272C, 0xF5D5B051, 0x8FD4B796)
  {
    Words3(first);
    Rounds2(first, w);
    var g := Digest(0xBEAD02CA, 0xA01B846C, 0x8714787C, 0x503CA382, 0xFB86C6AB);
    g := Step(INITIAL, w, 48, g, 0xDA9415ED, 0xD5A05957, 0x801CA06C, 0x2806E11B, 0xBAF39337);
    g := Step(INITIAL, w, 49, g, 0x26380A16, 0x5E7266F7, 0xAE04605A, 0xAFAB40B2, 0x120731C5);
    g := Step(INITIAL, w, 50, g, 0x626383A1, 0x40E638A2, 0xAAA3C133, 0xEEBCE4CD, 0x641DB2CE);
    g := Step(INITIAL, w, 51, g, 0x4EBF54DE, 0x83B659CC, 0xAEAF60C5, 0x4481CC71, 0x3847AD66);
    g := Step(INITIAL, w, 52, g, 0x3835B44B, 0x08F5ACC7, 0x649DE4CD, 0x99076CB3, 0xE490436D);
    g := Step(INITIAL, w, 53, g, 0x0000F600, 0x92086DBC, 0x1807EC73, 0x8E11EB59, 0x27E9F1D8);
    g := Step(INITIAL, w, 54, g, 0x1E84C7A3, 0xFD3E3B04, 0x8C116B79, 0x792410DB, 0x7B71F76D);
    g := Step(INITIAL, w, 55, g, 0x98E04D98, 0x6E3EEDAF, 0x2F21F1D9, 0x09FA7C76, 0x5E6456AF);
    g := Step(INITIAL, w, 56, g, 0x651D16A0, 0xCC8AD5EB, 0x7970747F, 0x5EDC7DDB, 0xC846093F);
    g := Step(INITIAL, w, 57, g, 0x62658CA1, 0x08C127F9, 0x5EFC7CFF, 0xD79915AB, 0xD262FF50);
    g := Step(INITIAL, w, 58, g, 0x458544D6, 0x4C5FEA1A, 0xDEDC1DBB, 0xF211824F, 0x09D785FD);
    g := Step(INITIAL, w, 59, g, 0x44584CB7, 0x3AF0BFA1, 0xD211974B, 0x3498BFD4, 0x3F52DE5A);
    g := Step(INITIAL, w, 60, g, 0x7BA06619, 0xEA5BCB47, 0xCF5EB866, 0x4275E17F, 0xD756C147);
    g := Step(INITIAL, w, 61, g, 0x6380AEA2, 0xEAD828FA, 0x49BF80F1, 0x8FD4B796, 0x548C9CB2);
    g := Step(INITIAL, w, 62, g, 0x0AE55269, 0x9193964A, 0x1AF797AE, 0xF5D5B051, 0xB66C020B);
    g := Step(INITIAL, w, 63, g, 0x627B49A1, 0xCD804176, 0x2E8D9B75, 0x9523272C, 0x6B61C9E1);
  }

  lemma Rounds4(first: nat -> Word, w: nat -> Word)
    requires Example(first) && Expands(first, w)
    ensures Rounds(INITIAL, w, 80) == Digest(0x42541B35, 0x5738D5E1, 0x21834873, 0x681E6DF6, 0xD8FDF6AD)
  {
    Words4(first);
    Rounds3(first, w);
    var g := Digest(0x6B61C9E1, 0xB66C020B, 0x9523272C, 0xF5D5B051, 0x8FD4B796);
    g := Step(INITIAL, w, 64, g, 0x7CD45C9D, 0x6C393C2D, 0xD69A9576, 0xED9B0082, 0x19DFA7AC);
    g := Step(INITIAL, w, 65, g, 0x000F0000, 0x3BF4F583, 0x13D9EE4F, 0x5AD87278, 0x101655F9);
    g := Step(INITIAL, w, 66, g, 0xFB50753A, 0x02CABF22, 0xAE9CD556, 0x0677E9EB, 0x0C3DF2B4);
    g := Step(INITIAL, w, 67, g, 0xEC6765E8, 0x87BE5681, 0x4CB9CE6A, 0x4405957E, 0x78DD4D2B);
    g := Step(INITIAL, w, 68, g, 0xBA3C2BE2, 0x1BA9A56F, 0x4E4F8E21, 0x030F7CAD, 0x497093C0);
    g := Step(INITIAL, w, 69, g, 0x0060C000, 0x2E127809, 0x3FD7A4F8, 0xDE37534A, 0x3F2588C2);
    g := Step(INITIAL, w, 70, g, 0x3A37CD05, 0xE4B11847, 0x9448BC27, 0x125C24F0, 0xC199F8C7);
    g := Step(INITIAL, w, 71, g, 0x458546F4, 0x333F18F8, 0xF34EFF78, 0x8FC96230, 0x39859DE7);
    g := Step(INITIAL, w, 72, g, 0xB8599DD6, 0x30B3BCE7, 0x5C0CBE07, 0xF0667E31, 0xEDB42DE4);
    g := Step(INITIAL, w, 73, g, 0x380A1A26, 0xB685BC9D, 0x462A81E6, 0xCE616779, 0x11793F6F);
    g := Step(INITIAL, w, 74, g, 0x01E02203, 0x2F27EDE2, 0xD3B334AC, 0x3B6D0B79, 0x5EE76897);
    g := Step(INITIAL, w, 75, g, 0xE7CC3456, 0xDCED12EB, 0xE475536F, 0xC45E4FDB, 0x63F7DAB7);
    g := Step(INITIAL, w, 76, g, 0xE6E60B69, 0x7EFB56EC, 0xA1D42C35, 0xD7B9DA25, 0xA079B7D9);
    g := Step(INITIAL, w, 77, g, 0x00F60A00, 0x0F36FB34, 0x70104F49, 0xD8FDF6AD, 0x860D21CC);
    g := Step(INITIAL, w, 78, g, 0x5795EF4F, 0xC1A43990, 0xAF3D9B51, 0x681E6DF6, 0x5738D5E1);
    g := Step(INITIAL, w, 79, g, 0x822E0879, 0xE71ABC2A, 0x36EEBA97, 0x21834873, 0x42541B35);
  }

  lemma EightOctets()
    ensures Octets(24, 8) == [0, 0, 0, 0, 0, 0, 0, 24]
  {
    assert Octets(0, 4) == [0, 0, 0, 0];
    assert Octets(0, 7) == [0, 0, 0, 0, 0, 0, 0];
  }

  /** The one block of the padded message. */
  lemma ExampleBlock(block: Block)
    requires block == Pad([0x61, 0x62, 0x63])
    ensures Example(BlockWords(block))
  {
    EightOctets();
    assert block == [0x61, 0x62, 0x63] + [0x80] + Zeros(52) + [0, 0, 0, 0, 0, 0, 0, 24];
    assert BlockWord(block, 0) == 0x61626380;
    assert BlockWord(block, 15) == 0x00000018;
    forall t: nat | 0 < t < 15
      ensures BlockWord(block, t) == 0
    {
      assert block[4 * t] == block[4 * t + 1] == block[4 * t + 2] == block[4 * t + 3] == 0;
    }
  }

  lemma BlockDigest(block: Block)
    requires Example(BlockWords(block))
    ensures Process(INITIAL, block) == Digest(0xA9993E36, 0x4706816A, 0xBA3E2571, 0x7850C26C, 0x9CD0D89D)
  {
    Rounds4(BlockWords(block), W(block));
    Sums();
  }

  lemma Sums()
    ensures Add(INITIAL, Digest(0x42541B35, 0x5738D5E1, 0x21834873, 0x681E6DF6, 0xD8FDF6AD))
         == Digest(0xA9993E36, 0x4706816A, 0xBA3E2571, 0x7850C26C, 0x9CD0D89D)
  {
  }

  lemma FoldOne<H>(step: (H, Block) -> H, h: H, m: seq<Octet>)
    requires |m| == 64
    ensures Fold(step, h, m, 1) == step(h, m)
  {
    assert m[..0] == [] && m[0..] == m;
  }

  /** The digest of "abc". */
  lemma DigestOfAbc(m: seq<Octet>)
    requires m == [0x61, 0x62, 0x63]
    ensures Sha1(m) == Digest(0xA9993E36, 0x4706816A, 0xBA3E2571, 0x7850C26C, 0x9CD0D89D)
  {
    assert |Pad(m)| == 64;
    ExampleBlock(Pad(m));
    BlockDigest(Pad(m));
    FoldOne(Process, INITIAL, Pad(m));
  }
}
