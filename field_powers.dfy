/** The powers of alpha == 2 in GF(2^8), alpha^0 .. alpha^255, each derived from the one before
    it by a multiplication by x. They show that alpha^255 == 1, that no smaller positive power
    of alpha is 1 and that every nonzero byte is a power of alpha below 255, which is what
    makes exponent/logarithm arithmetic correct.
    The base is the parameter x (always 2) so that the solver does not evaluate Power on
    literal arguments. */
module FieldPowers {
  import opened FieldArithmetic

  lemma Alpha0(x: byte)
    requires x == 2
    ensures Power(x, 0) == 1
  {
  }

  lemma Alpha1(x: byte)
    requires x == 2
    ensures Power(x, 1) == 2
  {
    Alpha0(x);
    PowerStep(x, 0, 1, 0, 0, 1, 2);
  }

  lemma Alpha2(x: byte)
    requires x == 2
    ensures Power(x, 2) == 4
  {
    Alpha1(x);
    PowerStep(x, 1, 2, 0, 1, 0, 4);
  }

  lemma Alpha3(x: byte)
    requires x == 2
    ensures Power(x, 3) == 8
  {
    Alpha2(x);
    PowerStep(x, 2, 4, 0, 2, 0, 8);
  }

  lemma Alpha4(x: byte)
    requires x == 2
    ensures Power(x, 4) == 16
  {
    Alpha3(x);
    PowerStep(x, 3, 8, 0, 4, 0, 16);
  }

  lemma Alpha5(x: byte)
    requires x == 2
    ensures Power(x, 5) == 32
  {
    Alpha4(x);
    PowerStep(x, 4, 16, 1, 0, 0, 32);
  }

  lemma Alpha6(x: byte)
    requires x == 2
    ensures Power(x, 6) == 64
  {
    Alpha5(x);
    PowerStep(x, 5, 32, 2, 0, 0, 64);
  }

  lemma Alpha7(x: byte)
    requires x == 2
    ensures Power(x, 7) == 128
  {
    Alpha6(x);
    PowerStep(x, 6, 64, 4, 0, 0, 128);
  }

  lemma Alpha8(x: byte)
    requires x == 2
    ensures Power(x, 8) == 29
  {
    Alpha7(x);
    PowerStep(x, 7, 128, 8, 0, 0, 29);
  }

  lemma Alpha9(x: byte)
    requires x == 2
    ensures Power(x, 9) == 58
  {
    Alpha8(x);
    PowerStep(x, 8, 29, 1, 6, 1, 58);
  }

  lemma Alpha10(x: byte)
    requires x == 2
    ensures Power(x, 10) == 116
  {
    Alpha9(x);
    PowerStep(x, 9, 58, 3, 5, 0, 116);
  }

  lemma Alpha11(x: byte)
    requires x == 2
    ensures Power(x, 11) == 232
  {
    Alpha10(x);
    PowerStep(x, 10, 116, 7, 2, 0, 232);
  }

  lemma Alpha12(x: byte)
    requires x == 2
    ensures Power(x, 12) == 205
  {
    Alpha11(x);
    PowerStep(x, 11, 232, 14, 4, 0, 205);
  }

  lemma Alpha13(x: byte)
    requires x == 2
    ensures Power(x, 13) == 135
  {
    Alpha12(x);
    PowerStep(x, 12, 205, 12, 6, 1, 135);
  }

  lemma Alpha14(x: byte)
    requires x == 2
    ensures Power(x, 14) == 19
  {
    Alpha13(x);
    PowerStep(x, 13, 135, 8, 3, 1, 19);
  }

  lemma Alpha15(x: byte)
    requires x == 2
    ensures Power(x, 15) == 38
  {
    Alpha14(x);
    PowerStep(x, 14, 19, 1, 1, 1, 38);
  }

  lemma Alpha16(x: byte)
    requires x == 2
    ensures Power(x, 16) == 76
  {
    Alpha15(x);
    PowerStep(x, 15, 38, 2, 3, 0, 76);
  }

  lemma Alpha17(x: byte)
    requires x == 2
    ensures Power(x, 17) == 152
  {
    Alpha16(x);
    PowerStep(x, 16, 76, 4, 6, 0, 152);
  }

  lemma Alpha18(x: byte)
    requires x == 2
    ensures Power(x, 18) == 45
  {
    Alpha17(x);
    PowerStep(x, 17, 152, 9, 4, 0, 45);
  }

  lemma Alpha19(x: byte)
    requires x == 2
    ensures Power(x, 19) == 90
  {
    Alpha18(x);
    PowerStep(x, 18, 45, 2, 6, 1, 90);
  }

  lemma Alpha20(x: byte)
    requires x == 2
    ensures Power(x, 20) == 180
  {
    Alpha19(x);
    PowerStep(x, 19, 90, 5, 5, 0, 180);
  }

  lemma Alpha21(x: byte)
    requires x == 2
    ensures Power(x, 21) == 117
  {
    Alpha20(x);
    PowerStep(x, 20, 180, 11, 2, 0, 117);
  }

  lemma Alpha22(x: byte)
    requires x == 2
    ensures Power(x, 22) == 234
  {
    Alpha21(x);
    PowerStep(x, 21, 117, 7, 2, 1, 234);
  }

  lemma Alpha23(x: byte)
    requires x == 2
    ensures Power(x, 23) == 201
  {
    Alpha22(x);
    PowerStep(x, 22, 234, 14, 5, 0, 201);
  }

  lemma Alpha24(x: byte)
    requires x == 2
    ensures Power(x, 24) == 143
  {
    Alpha23(x);
    PowerStep(x, 23, 201, 12, 4, 1, 143);
  }

  lemma Alpha25(x: byte)
    requires x == 2
    ensures Power(x, 25) == 3
  {
    Alpha24(x);
    PowerStep(x, 24, 143, 8, 7, 1, 3);
  }

  lemma Alpha26(x: byte)
    requires x == 2
    ensures Power(x, 26) == 6
  {
    Alpha25(x);
    PowerStep(x, 25, 3, 0, 1, 1, 6);
  }

  lemma Alpha27(x: byte)
    requires x == 2
    ensures Power(x, 27) == 12
  {
    Alpha26(x);
    PowerStep(x, 26, 6, 0, 3, 0, 12);
  }

  lemma Alpha28(x: byte)
    requires x == 2
    ensures Power(x, 28) == 24
  {
    Alpha27(x);
    PowerStep(x, 27, 12, 0, 6, 0, 24);
  }

  lemma Alpha29(x: byte)
    requires x == 2
    ensures Power(x, 29) == 48
  {
    Alpha28(x);
    PowerStep(x, 28, 24, 1, 4, 0, 48);
  }

  lemma Alpha30(x: byte)
    requires x == 2
    ensures Power(x, 30) == 96
  {
    Alpha29(x);
    PowerStep(x, 29, 48, 3, 0, 0, 96);
  }

  lemma Alpha31(x: byte)
    requires x == 2
    ensures Power(x, 31) == 192
  {
    Alpha30(x);
    PowerStep(x, 30, 96, 6, 0, 0, 192);
  }

  lemma Alpha32(x: byte)
    requires x == 2
    ensures Power(x, 32) == 157
  {
    Alpha31(x);
    PowerStep(x, 31, 192, 12, 0, 0, 157);
  }

  lemma Alpha33(x: byte)
    requires x == 2
    ensures Power(x, 33) == 39
  {
    Alpha32(x);
    PowerStep(x, 32, 157, 9, 6, 1, 39);
  }

  lemma Alpha34(x: byte)
    requires x == 2
    ensures Power(x, 34) == 78
  {
    Alpha33(x);
    PowerStep(x, 33, 39, 2, 3, 1, 78);
  }

  lemma Alpha35(x: byte)
    requires x == 2
    ensures Power(x, 35) == 156
  {
    Alpha34(x);
    PowerStep(x, 34, 78, 4, 7, 0, 156);
  }

  lemma Alpha36(x: byte)
    requires x == 2
    ensures Power(x, 36) == 37
  {
    Alpha35(x);
    PowerStep(x, 35, 156, 9, 6, 0, 37);
  }

  lemma Alpha37(x: byte)
    requires x == 2
    ensures Power(x, 37) == 74
  {
    Alpha36(x);
    PowerStep(x, 36, 37, 2, 2, 1, 74);
  }

  lemma Alpha38(x: byte)
    requires x == 2
    ensures Power(x, 38) == 148
  {
    Alpha37(x);
    PowerStep(x, 37, 74, 4, 5, 0, 148);
  }

  lemma Alpha39(x: byte)
    requires x == 2
    ensures Power(x, 39) == 53
  {
    Alpha38(x);
    PowerStep(x, 38, 148, 9, 2, 0, 53);
  }

  lemma Alpha40(x: byte)
    requires x == 2
    ensures Power(x, 40) == 106
  {
    Alpha39(x);
    PowerStep(x, 39, 53, 3, 2, 1, 106);
  }

  lemma Alpha41(x: byte)
    requires x == 2
    ensures Power(x, 41) == 212
  {
    Alpha40(x);
    PowerStep(x, 40, 106, 6, 5, 0, 212);
  }

  lemma Alpha42(x: byte)
    requires x == 2
    ensures Power(x, 42) == 181
  {
    Alpha41(x);
    PowerStep(x, 41, 212, 13, 2, 0, 181);
  }

  lemma Alpha43(x: byte)
    requires x == 2
    ensures Power(x, 43) == 119
  {
    Alpha42(x);
    PowerStep(x, 42, 181, 11, 2, 1, 119);
  }

  lemma Alpha44(x: byte)
    requires x == 2
    ensures Power(x, 44) == 238
  {
    Alpha43(x);
    PowerStep(x, 43, 119, 7, 3, 1, 238);
  }

  lemma Alpha45(x: byte)
    requires x == 2
    ensures Power(x, 45) == 193
  {
    Alpha44(x);
    PowerStep(x, 44, 238, 14, 7, 0, 193);
  }

  lemma Alpha46(x: byte)
    requires x == 2
    ensures Power(x, 46) == 159
  {
    Alpha45(x);
    PowerStep(x, 45, 193, 12, 0, 1, 159);
  }

  lemma Alpha47(x: byte)
    requires x == 2
    ensures Power(x, 47) == 35
  {
    Alpha46(x);
    PowerStep(x, 46, 159, 9, 7, 1, 35);
  }

  lemma Alpha48(x: byte)
    requires x == 2
    ensures Power(x, 48) == 70
  {
    Alpha47(x);
    PowerStep(x, 47, 35, 2, 1, 1, 70);
  }

  lemma Alpha49(x: byte)
    requires x == 2
    ensures Power(x, 49) == 140
  {
    Alpha48(x);
    PowerStep(x, 48, 70, 4, 3, 0, 140);
  }

  lemma Alpha50(x: byte)
    requires x == 2
    ensures Power(x, 50) == 5
  {
    Alpha49(x);
    PowerStep(x, 49, 140, 8, 6, 0, 5);
  }

  lemma Alpha51(x: byte)
    requires x == 2
    ensures Power(x, 51) == 10
  {
    Alpha50(x);
    PowerStep(x, 50, 5, 0, 2, 1, 10);
  }

  lemma Alpha52(x: byte)
    requires x == 2
    ensures Power(x, 52) == 20
  {
    Alpha51(x);
    PowerStep(x, 51, 10, 0, 5, 0, 20);
  }

  lemma Alpha53(x: byte)
    requires x == 2
    ensures Power(x, 53) == 40
  {
    Alpha52(x);
    PowerStep(x, 52, 20, 1, 2, 0, 40);
  }

  lemma Alpha54(x: byte)
    requires x == 2
    ensures Power(x, 54) == 80
  {
    Alpha53(x);
    PowerStep(x, 53, 40, 2, 4, 0, 80);
  }

  lemma Alpha55(x: byte)
    requires x == 2
    ensures Power(x, 55) == 160
  {
    Alpha54(x);
    PowerStep(x, 54, 80, 5, 0, 0, 160);
  }

  lemma Alpha56(x: byte)
    requires x == 2
    ensures Power(x, 56) == 93
  {
    Alpha55(x);
    PowerStep(x, 55, 160, 10, 0, 0, 93);
  }

  lemma Alpha57(x: byte)
    requires x == 2
    ensures Power(x, 57) == 186
  {
    Alpha56(x);
    PowerStep(x, 56, 93, 5, 6, 1, 186);
  }

  lemma Alpha58(x: byte)
    requires x == 2
    ensures Power(x, 58) == 105
  {
    Alpha57(x);
    PowerStep(x, 57, 186, 11, 5, 0, 105);
  }

  lemma Alpha59(x: byte)
    requires x == 2
    ensures Power(x, 59) == 210
  {
    Alpha58(x);
    PowerStep(x, 58, 105, 6, 4, 1, 210);
  }

  lemma Alpha60(x: byte)
    requires x == 2
    ensures Power(x, 60) == 185
  {
    Alpha59(x);
    PowerStep(x, 59, 210, 13, 1, 0, 185);
  }

  lemma Alpha61(x: byte)
    requires x == 2
    ensures Power(x, 61) == 111
  {
    Alpha60(x);
    PowerStep(x, 60, 185, 11, 4, 1, 111);
  }

  lemma Alpha62(x: byte)
    requires x == 2
    ensures Power(x, 62) == 222
  {
    Alpha61(x);
    PowerStep(x, 61, 111, 6, 7, 1, 222);
  }

  lemma Alpha63(x: byte)
    requires x == 2
    ensures Power(x, 63) == 161
  {
    Alpha62(x);
    PowerStep(x, 62, 222, 13, 7, 0, 161);
  }

  lemma Alpha64(x: byte)
    requires x == 2
    ensures Power(x, 64) == 95
  {
    Alpha63(x);
    PowerStep(x, 63, 161, 10, 0, 1, 95);
  }

  lemma Alpha65(x: byte)
    requires x == 2
    ensures Power(x, 65) == 190
  {
    Alpha64(x);
    PowerStep(x, 64, 95, 5, 7, 1, 190);
  }

  lemma Alpha66(x: byte)
    requires x == 2
    ensures Power(x, 66) == 97
  {
    Alpha65(x);
    PowerStep(x, 65, 190, 11, 7, 0, 97);
  }

  lemma Alpha67(x: byte)
    requires x == 2
    ensures Power(x, 67) == 194
  {
    Alpha66(x);
    PowerStep(x, 66, 97, 6, 0, 1, 194);
  }

  lemma Alpha68(x: byte)
    requires x == 2
    ensures Power(x, 68) == 153
  {
    Alpha67(x);
    PowerStep(x, 67, 194, 12, 1, 0, 153);
  }

  lemma Alpha69(x: byte)
    requires x == 2
    ensures Power(x, 69) == 47
  {
    Alpha68(x);
    PowerStep(x, 68, 153, 9, 4, 1, 47);
  }

  lemma Alpha70(x: byte)
    requires x == 2
    ensures Power(x, 70) == 94
  {
    Alpha69(x);
    PowerStep(x, 69, 47, 2, 7, 1, 94);
  }

  lemma Alpha71(x: byte)
    requires x == 2
    ensures Power(x, 71) == 188
  {
    Alpha70(x);
    PowerStep(x, 70, 94, 5, 7, 0, 188);
  }

  lemma Alpha72(x: byte)
    requires x == 2
    ensures Power(x, 72) == 101
  {
    Alpha71(x);
    PowerStep(x, 71, 188, 11, 6, 0, 101);
  }

  lemma Alpha73(x: byte)
    requires x == 2
    ensures Power(x, 73) == 202
  {
    Alpha72(x);
    PowerStep(x, 72, 101, 6, 2, 1, 202);
  }

  lemma Alpha74(x: byte)
    requires x == 2
    ensures Power(x, 74) == 137
  {
    Alpha73(x);
    PowerStep(x, 73, 202, 12, 5, 0, 137);
  }

  lemma Alpha75(x: byte)
    requires x == 2
    ensures Power(x, 75) == 15
  {
    Alpha74(x);
    PowerStep(x, 74, 137, 8, 4, 1, 15);
  }

  lemma Alpha76(x: byte)
    requires x == 2
    ensures Power(x, 76) == 30
  {
    Alpha75(x);
    PowerStep(x, 75, 15, 0, 7, 1, 30);
  }

  lemma Alpha77(x: byte)
    requires x == 2
    ensures Power(x, 77) == 60
  {
    Alpha76(x);
    PowerStep(x, 76, 30, 1, 7, 0, 60);
  }

  lemma Alpha78(x: byte)
    requires x == 2
    ensures Power(x, 78) == 120
  {
    Alpha77(x);
    PowerStep(x, 77, 60, 3, 6, 0, 120);
  }

  lemma Alpha79(x: byte)
    requires x == 2
    ensures Power(x, 79) == 240
  {
    Alpha78(x);
    PowerStep(x, 78, 120, 7, 4, 0, 240);
  }

  lemma Alpha80(x: byte)
    requires x == 2
    ensures Power(x, 80) == 253
  {
    Alpha79(x);
    PowerStep(x, 79, 240, 15, 0, 0, 253);
  }

  lemma Alpha81(x: byte)
    requires x == 2
    ensures Power(x, 81) == 231
  {
    Alpha80(x);
    PowerStep(x, 80, 253, 15, 6, 1, 231);
  }

  lemma Alpha82(x: byte)
    requires x == 2
    ensures Power(x, 82) == 211
  {
    Alpha81(x);
    PowerStep(x, 81, 231, 14, 3, 1, 211);
  }

  lemma Alpha83(x: byte)
    requires x == 2
    ensures Power(x, 83) == 187
  {
    Alpha82(x);
    PowerStep(x, 82, 211, 13, 1, 1, 187);
  }

  lemma Alpha84(x: byte)
    requires x == 2
    ensures Power(x, 84) == 107
  {
    Alpha83(x);
    PowerStep(x, 83, 187, 11, 5, 1, 107);
  }

  lemma Alpha85(x: byte)
    requires x == 2
    ensures Power(x, 85) == 214
  {
    Alpha84(x);
    PowerStep(x, 84, 107, 6, 5, 1, 214);
  }

  lemma Alpha86(x: byte)
    requires x == 2
    ensures Power(x, 86) == 177
  {
    Alpha85(x);
    PowerStep(x, 85, 214, 13, 3, 0, 177);
  }

  lemma Alpha87(x: byte)
    requires x == 2
    ensures Power(x, 87) == 127
  {
    Alpha86(x);
    PowerStep(x, 86, 177, 11, 0, 1, 127);
  }

  lemma Alpha88(x: byte)
    requires x == 2
    ensures Power(x, 88) == 254
  {
    Alpha87(x);
    PowerStep(x, 87, 127, 7, 7, 1, 254);
  }

  lemma Alpha89(x: byte)
    requires x == 2
    ensures Power(x, 89) == 225
  {
    Alpha88(x);
    PowerStep(x, 88, 254, 15, 7, 0, 225);
  }

  lemma Alpha90(x: byte)
    requires x == 2
    ensures Power(x, 90) == 223
  {
    Alpha89(x);
    PowerStep(x, 89, 225, 14, 0, 1, 223);
  }

  lemma Alpha91(x: byte)
    requires x == 2
    ensures Power(x, 91) == 163
  {
    Alpha90(x);
    PowerStep(x, 90, 223, 13, 7, 1, 163);
  }

  lemma Alpha92(x: byte)
    requires x == 2
    ensures Power(x, 92) == 91
  {
    Alpha91(x);
    PowerStep(x, 91, 163, 10, 1, 1, 91);
  }

  lemma Alpha93(x: byte)
    requires x == 2
    ensures Power(x, 93) == 182
  {
    Alpha92(x);
    PowerStep(x, 92, 91, 5, 5, 1, 182);
  }

  lemma Alpha94(x: byte)
    requires x == 2
    ensures Power(x, 94) == 113
  {
    Alpha93(x);
    PowerStep(x, 93, 182, 11, 3, 0, 113);
  }

  lemma Alpha95(x: byte)
    requires x == 2
    ensures Power(x, 95) == 226
  {
    Alpha94(x);
    PowerStep(x, 94, 113, 7, 0, 1, 226);
  }

  lemma Alpha96(x: byte)
    requires x == 2
    ensures Power(x, 96) == 217
  {
    Alpha95(x);
    PowerStep(x, 95, 226, 14, 1, 0, 217);
  }

  lemma Alpha97(x: byte)
    requires x == 2
    ensures Power(x, 97) == 175
  {
    Alpha96(x);
    PowerStep(x, 96, 217, 13, 4, 1, 175);
  }

  lemma Alpha98(x: byte)
    requires x == 2
    ensures Power(x, 98) == 67
  {
    Alpha97(x);
    PowerStep(x, 97, 175, 10, 7, 1, 67);
  }

  lemma Alpha99(x: byte)
    requires x == 2
    ensures Power(x, 99) == 134
  {
    Alpha98(x);
    PowerStep(x, 98, 67, 4, 1, 1, 134);
  }

  lemma Alpha100(x: byte)
    requires x == 2
    ensures Power(x, 100) == 17
  {
    Alpha99(x);
    PowerStep(x, 99, 134, 8, 3, 0, 17);
  }

  lemma Alpha101(x: byte)
    requires x == 2
    ensures Power(x, 101) == 34
  {
    Alpha100(x);
    PowerStep(x, 100, 17, 1, 0, 1, 34);
  }

  lemma Alpha102(x: byte)
    requires x == 2
    ensures Power(x, 102) == 68
  {
    Alpha101(x);
    PowerStep(x, 101, 34, 2, 1, 0, 68);
  }

  lemma Alpha103(x: byte)
    requires x == 2
    ensures Power(x, 103) == 136
  {
    Alpha102(x);
    PowerStep(x, 102, 68, 4, 2, 0, 136);
  }

  lemma Alpha104(x: byte)
    requires x == 2
    ensures Power(x, 104) == 13
  {
    Alpha103(x);
    PowerStep(x, 103, 136, 8, 4, 0, 13);
  }

  lemma Alpha105(x: byte)
    requires x == 2
    ensures Power(x, 105) == 26
  {
    Alpha104(x);
    PowerStep(x, 104, 13, 0, 6, 1, 26);
  }

  lemma Alpha106(x: byte)
    requires x == 2
    ensures Power(x, 106) == 52
  {
    Alpha105(x);
    PowerStep(x, 105, 26, 1, 5, 0, 52);
  }

  lemma Alpha107(x: byte)
    requires x == 2
    ensures Power(x, 107) == 104
  {
    Alpha106(x);
    PowerStep(x, 106, 52, 3, 2, 0, 104);
  }

  lemma Alpha108(x: byte)
    requires x == 2
    ensures Power(x, 108) == 208
  {
    Alpha107(x);
    PowerStep(x, 107, 104, 6, 4, 0, 208);
  }

  lemma Alpha109(x: byte)
    requires x == 2
    ensures Power(x, 109) == 189
  {
    Alpha108(x);
    PowerStep(x, 108, 208, 13, 0, 0, 189);
  }

  lemma Alpha110(x: byte)
    requires x == 2
    ensures Power(x, 110) == 103
  {
    Alpha109(x);
    PowerStep(x, 109, 189, 11, 6, 1, 103);
  }

  lemma Alpha111(x: byte)
    requires x == 2
    ensures Power(x, 111) == 206
  {
    Alpha110(x);
    PowerStep(x, 110, 103, 6, 3, 1, 206);
  }

  lemma Alpha112(x: byte)
    requires x == 2
    ensures Power(x, 112) == 129
  {
    Alpha111(x);
    PowerStep(x, 111, 206, 12, 7, 0, 129);
  }

  lemma Alpha113(x: byte)
    requires x == 2
    ensures Power(x, 113) == 31
  {
    Alpha112(x);
    PowerStep(x, 112, 129, 8, 0, 1, 31);
  }

  lemma Alpha114(x: byte)
    requires x == 2
    ensures Power(x, 114) == 62
  {
    Alpha113(x);
    PowerStep(x, 113, 31, 1, 7, 1, 62);
  }

  lemma Alpha115(x: byte)
    requires x == 2
    ensures Power(x, 115) == 124
  {
    Alpha114(x);
    PowerStep(x, 114, 62, 3, 7, 0, 124);
  }

  lemma Alpha116(x: byte)
    requires x == 2
    ensures Power(x, 116) == 248
  {
    Alpha115(x);
    PowerStep(x, 115, 124, 7, 6, 0, 248);
  }

  lemma Alpha117(x: byte)
    requires x == 2
    ensures Power(x, 117) == 237
  {
    Alpha116(x);
    PowerStep(x, 116, 248, 15, 4, 0, 237);
  }

  lemma Alpha118(x: byte)
    requires x == 2
    ensures Power(x, 118) == 199
  {
    Alpha117(x);
    PowerStep(x, 117, 237, 14, 6, 1, 199);
  }

  lemma Alpha119(x: byte)
    requires x == 2
    ensures Power(x, 119) == 147
  {
    Alpha118(x);
    PowerStep(x, 118, 199, 12, 3, 1, 147);
  }

  lemma Alpha120(x: byte)
    requires x == 2
    ensures Power(x, 120) == 59
  {
    Alpha119(x);
    PowerStep(x, 119, 147, 9, 1, 1, 59);
  }

  lemma Alpha121(x: byte)
    requires x == 2
    ensures Power(x, 121) == 118
  {
    Alpha120(x);
    PowerStep(x, 120, 59, 3, 5, 1, 118);
  }

  lemma Alpha122(x: byte)
    requires x == 2
    ensures Power(x, 122) == 236
  {
    Alpha121(x);
    PowerStep(x, 121, 118, 7, 3, 0, 236);
  }

  lemma Alpha123(x: byte)
    requires x == 2
    ensures Power(x, 123) == 197
  {
    Alpha122(x);
    PowerStep(x, 122, 236, 14, 6, 0, 197);
  }

  lemma Alpha124(x: byte)
    requires x == 2
    ensures Power(x, 124) == 151
  {
    Alpha123(x);
    PowerStep(x, 123, 197, 12, 2, 1, 151);
  }

  lemma Alpha125(x: byte)
    requires x == 2
    ensures Power(x, 125) == 51
  {
    Alpha124(x);
    PowerStep(x, 124, 151, 9, 3, 1, 51);
  }

  lemma Alpha126(x: byte)
    requires x == 2
    ensures Power(x, 126) == 102
  {
    Alpha125(x);
    PowerStep(x, 125, 51, 3, 1, 1, 102);
  }

  lemma Alpha127(x: byte)
    requires x == 2
    ensures Power(x, 127) == 204
  {
    Alpha126(x);
    PowerStep(x, 126, 102, 6, 3, 0, 204);
  }

  lemma Alpha128(x: byte)
    requires x == 2
    ensures Power(x, 128) == 133
  {
    Alpha127(x);
    PowerStep(x, 127, 204, 12, 6, 0, 133);
  }

  lemma Alpha129(x: byte)
    requires x == 2
    ensures Power(x, 129) == 23
  {
    Alpha128(x);
    PowerStep(x, 128, 133, 8, 2, 1, 23);
  }

  lemma Alpha130(x: byte)
    requires x == 2
    ensures Power(x, 130) == 46
  {
    Alpha129(x);
    PowerStep(x, 129, 23, 1, 3, 1, 46);
  }

  lemma Alpha131(x: byte)
    requires x == 2
    ensures Power(x, 131) == 92
  {
    Alpha130(x);
    PowerStep(x, 130, 46, 2, 7, 0, 92);
  }

  lemma Alpha132(x: byte)
    requires x == 2
    ensures Power(x, 132) == 184
  {
    Alpha131(x);
    PowerStep(x, 131, 92, 5, 6, 0, 184);
  }

  lemma Alpha133(x: byte)
    requires x == 2
    ensures Power(x, 133) == 109
  {
    Alpha132(x);
    PowerStep(x, 132, 184, 11, 4, 0, 109);
  }

  lemma Alpha134(x: byte)
    requires x == 2
    ensures Power(x, 134) == 218
  {
    Alpha133(x);
    PowerStep(x, 133, 109, 6, 6, 1, 218);
  }

  lemma Alpha135(x: byte)
    requires x == 2
    ensures Power(x, 135) == 169
  {
    Alpha134(x);
    PowerStep(x, 134, 218, 13, 5, 0, 169);
  }

  lemma Alpha136(x: byte)
    requires x == 2
    ensures Power(x, 136) == 79
  {
    Alpha135(x);
    PowerStep(x, 135, 169, 10, 4, 1, 79);
  }

  lemma Alpha137(x: byte)
    requires x == 2
    ensures Power(x, 137) == 158
  {
    Alpha136(x);
    PowerStep(x, 136, 79, 4, 7, 1, 158);
  }

  lemma Alpha138(x: byte)
    requires x == 2
    ensures Power(x, 138) == 33
  {
    Alpha137(x);
    PowerStep(x, 137, 158, 9, 7, 0, 33);
  }

  lemma Alpha139(x: byte)
    requires x == 2
    ensures Power(x, 139) == 66
  {
    Alpha138(x);
    PowerStep(x, 138, 33, 2, 0, 1, 66);
  }

  lemma Alpha140(x: byte)
    requires x == 2
    ensures Power(x, 140) == 132
  {
    Alpha139(x);
    PowerStep(x, 139, 66, 4, 1, 0, 132);
  }

  lemma Alpha141(x: byte)
    requires x == 2
    ensures Power(x, 141) == 21
  {
    Alpha140(x);
    PowerStep(x, 140, 132, 8, 2, 0, 21);
  }

  lemma Alpha142(x: byte)
    requires x == 2
    ensures Power(x, 142) == 42
  {
    Alpha141(x);
    PowerStep(x, 141, 21, 1, 2, 1, 42);
  }

  lemma Alpha143(x: byte)
    requires x == 2
    ensures Power(x, 143) == 84
  {
    Alpha142(x);
    PowerStep(x, 142, 42, 2, 5, 0, 84);
  }

  lemma Alpha144(x: byte)
    requires x == 2
    ensures Power(x, 144) == 168
  {
    Alpha143(x);
    PowerStep(x, 143, 84, 5, 2, 0, 168);
  }

  lemma Alpha145(x: byte)
    requires x == 2
    ensures Power(x, 145) == 77
  {
    Alpha144(x);
    PowerStep(x, 144, 168, 10, 4, 0, 77);
  }

  lemma Alpha146(x: byte)
    requires x == 2
    ensures Power(x, 146) == 154
  {
    Alpha145(x);
    PowerStep(x, 145, 77, 4, 6, 1, 154);
  }

  lemma Alpha147(x: byte)
    requires x == 2
    ensures Power(x, 147) == 41
  {
    Alpha146(x);
    PowerStep(x, 146, 154, 9, 5, 0, 41);
  }

  lemma Alpha148(x: byte)
    requires x == 2
    ensures Power(x, 148) == 82
  {
    Alpha147(x);
    PowerStep(x, 147, 41, 2, 4, 1, 82);
  }

  lemma Alpha149(x: byte)
    requires x == 2
    ensures Power(x, 149) == 164
  {
    Alpha148(x);
    PowerStep(x, 148, 82, 5, 1, 0, 164);
  }

  lemma Alpha150(x: byte)
    requires x == 2
    ensures Power(x, 150) == 85
  {
    Alpha149(x);
    PowerStep(x, 149, 164, 10, 2, 0, 85);
  }

  lemma Alpha151(x: byte)
    requires x == 2
    ensures Power(x, 151) == 170
  {
    Alpha150(x);
    PowerStep(x, 150, 85, 5, 2, 1, 170);
  }

  lemma Alpha152(x: byte)
    requires x == 2
    ensures Power(x, 152) == 73
  {
    Alpha151(x);
    PowerStep(x, 151, 170, 10, 5, 0, 73);
  }

  lemma Alpha153(x: byte)
    requires x == 2
    ensures Power(x, 153) == 146
  {
    Alpha152(x);
    PowerStep(x, 152, 73, 4, 4, 1, 146);
  }

  lemma Alpha154(x: byte)
    requires x == 2
    ensures Power(x, 154) == 57
  {
    Alpha153(x);
    PowerStep(x, 153, 146, 9, 1, 0, 57);
  }

  lemma Alpha155(x: byte)
    requires x == 2
    ensures Power(x, 155) == 114
  {
    Alpha154(x);
    PowerStep(x, 154, 57, 3, 4, 1, 114);
  }

  lemma Alpha156(x: byte)
    requires x == 2
    ensures Power(x, 156) == 228
  {
    Alpha155(x);
    PowerStep(x, 155, 114, 7, 1, 0, 228);
  }

  lemma Alpha157(x: byte)
    requires x == 2
    ensures Power(x, 157) == 213
  {
    Alpha156(x);
    PowerStep(x, 156, 228, 14, 2, 0, 213);
  }

  lemma Alpha158(x: byte)
    requires x == 2
    ensures Power(x, 158) == 183
  {
    Alpha157(x);
    PowerStep(x, 157, 213, 13, 2, 1, 183);
  }

  lemma Alpha159(x: byte)
    requires x == 2
    ensures Power(x, 159) == 115
  {
    Alpha158(x);
    PowerStep(x, 158, 183, 11, 3, 1, 115);
  }

  lemma Alpha160(x: byte)
    requires x == 2
    ensures Power(x, 160) == 230
  {
    Alpha159(x);
    PowerStep(x, 159, 115, 7, 1, 1, 230);
  }

  lemma Alpha161(x: byte)
    requires x == 2
    ensures Power(x, 161) == 209
  {
    Alpha160(x);
    PowerStep(x, 160, 230, 14, 3, 0, 209);
  }

  lemma Alpha162(x: byte)
    requires x == 2
    ensures Power(x, 162) == 191
  {
    Alpha161(x);
    PowerStep(x, 161, 209, 13, 0, 1, 191);
  }

  lemma Alpha163(x: byte)
    requires x == 2
    ensures Power(x, 163) == 99
  {
    Alpha162(x);
    PowerStep(x, 162, 191, 11, 7, 1, 99);
  }

  lemma Alpha164(x: byte)
    requires x == 2
    ensures Power(x, 164) == 198
  {
    Alpha163(x);
    PowerStep(x, 163, 99, 6, 1, 1, 198);
  }

  lemma Alpha165(x: byte)
    requires x == 2
    ensures Power(x, 165) == 145
  {
    Alpha164(x);
    PowerStep(x, 164, 198, 12, 3, 0, 145);
  }

  lemma Alpha166(x: byte)
    requires x == 2
    ensures Power(x, 166) == 63
  {
    Alpha165(x);
    PowerStep(x, 165, 145, 9, 0, 1, 63);
  }

  lemma Alpha167(x: byte)
    requires x == 2
    ensures Power(x, 167) == 126
  {
    Alpha166(x);
    PowerStep(x, 166, 63, 3, 7, 1, 126);
  }

  lemma Alpha168(x: byte)
    requires x == 2
    ensures Power(x, 168) == 252
  {
    Alpha167(x);
    PowerStep(x, 167, 126, 7, 7, 0, 252);
  }

  lemma Alpha169(x: byte)
    requires x == 2
    ensures Power(x, 169) == 229
  {
    Alpha168(x);
    PowerStep(x, 168, 252, 15, 6, 0, 229);
  }

  lemma Alpha170(x: byte)
    requires x == 2
    ensures Power(x, 170) == 215
  {
    Alpha169(x);
    PowerStep(x, 169, 229, 14, 2, 1, 215);
  }

  lemma Alpha171(x: byte)
    requires x == 2
    ensures Power(x, 171) == 179
  {
    Alpha170(x);
    PowerStep(x, 170, 215, 13, 3, 1, 179);
  }

  lemma Alpha172(x: byte)
    requires x == 2
    ensures Power(x, 172) == 123
  {
    Alpha171(x);
    PowerStep(x, 171, 179, 11, 1, 1, 123);
  }

  lemma Alpha173(x: byte)
    requires x == 2
    ensures Power(x, 173) == 246
  {
    Alpha172(x);
    PowerStep(x, 172, 123, 7, 5, 1, 246);
  }

  lemma Alpha174(x: byte)
    requires x == 2
    ensures Power(x, 174) == 241
  {
    Alpha173(x);
    PowerStep(x, 173, 246, 15, 3, 0, 241);
  }

  lemma Alpha175(x: byte)
    requires x == 2
    ensures Power(x, 175) == 255
  {
    Alpha174(x);
    PowerStep(x, 174, 241, 15, 0, 1, 255);
  }

  lemma Alpha176(x: byte)
    requires x == 2
    ensures Power(x, 176) == 227
  {
    Alpha175(x);
    PowerStep(x, 175, 255, 15, 7, 1, 227);
  }

  lemma Alpha177(x: byte)
    requires x == 2
    ensures Power(x, 177) == 219
  {
    Alpha176(x);
    PowerStep(x, 176, 227, 14, 1, 1, 219);
  }

  lemma Alpha178(x: byte)
    requires x == 2
    ensures Power(x, 178) == 171
  {
    Alpha177(x);
    PowerStep(x, 177, 219, 13, 5, 1, 171);
  }

  lemma Alpha179(x: byte)
    requires x == 2
    ensures Power(x, 179) == 75
  {
    Alpha178(x);
    PowerStep(x, 178, 171, 10, 5, 1, 75);
  }

  lemma Alpha180(x: byte)
    requires x == 2
    ensures Power(x, 180) == 150
  {
    Alpha179(x);
    PowerStep(x, 179, 75, 4, 5, 1, 150);
  }

  lemma Alpha181(x: byte)
    requires x == 2
    ensures Power(x, 181) == 49
  {
    Alpha180(x);
    PowerStep(x, 180, 150, 9, 3, 0, 49);
  }

  lemma Alpha182(x: byte)
    requires x == 2
    ensures Power(x, 182) == 98
  {
    Alpha181(x);
    PowerStep(x, 181, 49, 3, 0, 1, 98);
  }

  lemma Alpha183(x: byte)
    requires x == 2
    ensures Power(x, 183) == 196
  {
    Alpha182(x);
    PowerStep(x, 182, 98, 6, 1, 0, 196);
  }

  lemma Alpha184(x: byte)
    requires x == 2
    ensures Power(x, 184) == 149
  {
    Alpha183(x);
    PowerStep(x, 183, 196, 12, 2, 0, 149);
  }

  lemma Alpha185(x: byte)
    requires x == 2
    ensures Power(x, 185) == 55
  {
    Alpha184(x);
    PowerStep(x, 184, 149, 9, 2, 1, 55);
  }

  lemma Alpha186(x: byte)
    requires x == 2
    ensures Power(x, 186) == 110
  {
    Alpha185(x);
    PowerStep(x, 185, 55, 3, 3, 1, 110);
  }

  lemma Alpha187(x: byte)
    requires x == 2
    ensures Power(x, 187) == 220
  {
    Alpha186(x);
    PowerStep(x, 186, 110, 6, 7, 0, 220);
  }

  lemma Alpha188(x: byte)
    requires x == 2
    ensures Power(x, 188) == 165
  {
    Alpha187(x);
    PowerStep(x, 187, 220, 13, 6, 0, 165);
  }

  lemma Alpha189(x: byte)
    requires x == 2
    ensures Power(x, 189) == 87
  {
    Alpha188(x);
    PowerStep(x, 188, 165, 10, 2, 1, 87);
  }

  lemma Alpha190(x: byte)
    requires x == 2
    ensures Power(x, 190) == 174
  {
    Alpha189(x);
    PowerStep(x, 189, 87, 5, 3, 1, 174);
  }

  lemma Alpha191(x: byte)
    requires x == 2
    ensures Power(x, 191) == 65
  {
    Alpha190(x);
    PowerStep(x, 190, 174, 10, 7, 0, 65);
  }

  lemma Alpha192(x: byte)
    requires x == 2
    ensures Power(x, 192) == 130
  {
    Alpha191(x);
    PowerStep(x, 191, 65, 4, 0, 1, 130);
  }

  lemma Alpha193(x: byte)
    requires x == 2
    ensures Power(x, 193) == 25
  {
    Alpha192(x);
    PowerStep(x, 192, 130, 8, 1, 0, 25);
  }

  lemma Alpha194(x: byte)
    requires x == 2
    ensures Power(x, 194) == 50
  {
    Alpha193(x);
    PowerStep(x, 193, 25, 1, 4, 1, 50);
  }

  lemma Alpha195(x: byte)
    requires x == 2
    ensures Power(x, 195) == 100
  {
    Alpha194(x);
    PowerStep(x, 194, 50, 3, 1, 0, 100);
  }

  lemma Alpha196(x: byte)
    requires x == 2
    ensures Power(x, 196) == 200
  {
    Alpha195(x);
    PowerStep(x, 195, 100, 6, 2, 0, 200);
  }

  lemma Alpha197(x: byte)
    requires x == 2
    ensures Power(x, 197) == 141
  {
    Alpha196(x);
    PowerStep(x, 196, 200, 12, 4, 0, 141);
  }

  lemma Alpha198(x: byte)
    requires x == 2
    ensures Power(x, 198) == 7
  {
    Alpha197(x);
    PowerStep(x, 197, 141, 8, 6, 1, 7);
  }

  lemma Alpha199(x: byte)
    requires x == 2
    ensures Power(x, 199) == 14
  {
    Alpha198(x);
    PowerStep(x, 198, 7, 0, 3, 1, 14);
  }

  lemma Alpha200(x: byte)
    requires x == 2
    ensures Power(x, 200) == 28
  {
    Alpha199(x);
    PowerStep(x, 199, 14, 0, 7, 0, 28);
  }

  lemma Alpha201(x: byte)
    requires x == 2
    ensures Power(x, 201) == 56
  {
    Alpha200(x);
    PowerStep(x, 200, 28, 1, 6, 0, 56);
  }

  lemma Alpha202(x: byte)
    requires x == 2
    ensures Power(x, 202) == 112
  {
    Alpha201(x);
    PowerStep(x, 201, 56, 3, 4, 0, 112);
  }

  lemma Alpha203(x: byte)
    requires x == 2
    ensures Power(x, 203) == 224
  {
    Alpha202(x);
    PowerStep(x, 202, 112, 7, 0, 0, 224);
  }

  lemma Alpha204(x: byte)
    requires x == 2
    ensures Power(x, 204) == 221
  {
    Alpha203(x);
    PowerStep(x, 203, 224, 14, 0, 0, 221);
  }

  lemma Alpha205(x: byte)
    requires x == 2
    ensures Power(x, 205) == 167
  {
    Alpha204(x);
    PowerStep(x, 204, 221, 13, 6, 1, 167);
  }

  lemma Alpha206(x: byte)
    requires x == 2
    ensures Power(x, 206) == 83
  {
    Alpha205(x);
    PowerStep(x, 205, 167, 10, 3, 1, 83);
  }

  lemma Alpha207(x: byte)
    requires x == 2
    ensures Power(x, 207) == 166
  {
    Alpha206(x);
    PowerStep(x, 206, 83, 5, 1, 1, 166);
  }

  lemma Alpha208(x: byte)
    requires x == 2
    ensures Power(x, 208) == 81
  {
    Alpha207(x);
    PowerStep(x, 207, 166, 10, 3, 0, 81);
  }

  lemma Alpha209(x: byte)
    requires x == 2
    ensures Power(x, 209) == 162
  {
    Alpha208(x);
    PowerStep(x, 208, 81, 5, 0, 1, 162);
  }

  lemma Alpha210(x: byte)
    requires x == 2
    ensures Power(x, 210) == 89
  {
    Alpha209(x);
    PowerStep(x, 209, 162, 10, 1, 0, 89);
  }

  lemma Alpha211(x: byte)
    requires x == 2
    ensures Power(x, 211) == 178
  {
    Alpha210(x);
    PowerStep(x, 210, 89, 5, 4, 1, 178);
  }

  lemma Alpha212(x: byte)
    requires x == 2
    ensures Power(x, 212) == 121
  {
    Alpha211(x);
    PowerStep(x, 211, 178, 11, 1, 0, 121);
  }

  lemma Alpha213(x: byte)
    requires x == 2
    ensures Power(x, 213) == 242
  {
    Alpha212(x);
    PowerStep(x, 212, 121, 7, 4, 1, 242);
  }

  lemma Alpha214(x: byte)
    requires x == 2
    ensures Power(x, 214) == 249
  {
    Alpha213(x);
    PowerStep(x, 213, 242, 15, 1, 0, 249);
  }

  lemma Alpha215(x: byte)
    requires x == 2
    ensures Power(x, 215) == 239
  {
    Alpha214(x);
    PowerStep(x, 214, 249, 15, 4, 1, 239);
  }

  lemma Alpha216(x: byte)
    requires x == 2
    ensures Power(x, 216) == 195
  {
    Alpha215(x);
    PowerStep(x, 215, 239, 14, 7, 1, 195);
  }

  lemma Alpha217(x: byte)
    requires x == 2
    ensures Power(x, 217) == 155
  {
    Alpha216(x);
    PowerStep(x, 216, 195, 12, 1, 1, 155);
  }

  lemma Alpha218(x: byte)
    requires x == 2
    ensures Power(x, 218) == 43
  {
    Alpha217(x);
    PowerStep(x, 217, 155, 9, 5, 1, 43);
  }

  lemma Alpha219(x: byte)
    requires x == 2
    ensures Power(x, 219) == 86
  {
    Alpha218(x);
    PowerStep(x, 218, 43, 2, 5, 1, 86);
  }

  lemma Alpha220(x: byte)
    requires x == 2
    ensures Power(x, 220) == 172
  {
    Alpha219(x);
    PowerStep(x, 219, 86, 5, 3, 0, 172);
  }

  lemma Alpha221(x: byte)
    requires x == 2
    ensures Power(x, 221) == 69
  {
    Alpha220(x);
    PowerStep(x, 220, 172, 10, 6, 0, 69);
  }

  lemma Alpha222(x: byte)
    requires x == 2
    ensures Power(x, 222) == 138
  {
    Alpha221(x);
    PowerStep(x, 221, 69, 4, 2, 1, 138);
  }

  lemma Alpha223(x: byte)
    requires x == 2
    ensures Power(x, 223) == 9
  {
    Alpha222(x);
    PowerStep(x, 222, 138, 8, 5, 0, 9);
  }

  lemma Alpha224(x: byte)
    requires x == 2
    ensures Power(x, 224) == 18
  {
    Alpha223(x);
    PowerStep(x, 223, 9, 0, 4, 1, 18);
  }

  lemma Alpha225(x: byte)
    requires x == 2
    ensures Power(x, 225) == 36
  {
    Alpha224(x);
    PowerStep(x, 224, 18, 1, 1, 0, 36);
  }

  lemma Alpha226(x: byte)
    requires x == 2
    ensures Power(x, 226) == 72
  {
    Alpha225(x);
    PowerStep(x, 225, 36, 2, 2, 0, 72);
  }

  lemma Alpha227(x: byte)
    requires x == 2
    ensures Power(x, 227) == 144
  {
    Alpha226(x);
    PowerStep(x, 226, 72, 4, 4, 0, 144);
  }

  lemma Alpha228(x: byte)
    requires x == 2
    ensures Power(x, 228) == 61
  {
    Alpha227(x);
    PowerStep(x, 227, 144, 9, 0, 0, 61);
  }

  lemma Alpha229(x: byte)
    requires x == 2
    ensures Power(x, 229) == 122
  {
    Alpha228(x);
    PowerStep(x, 228, 61, 3, 6, 1, 122);
  }

  lemma Alpha230(x: byte)
    requires x == 2
    ensures Power(x, 230) == 244
  {
    Alpha229(x);
    PowerStep(x, 229, 122, 7, 5, 0, 244);
  }

  lemma Alpha231(x: byte)
    requires x == 2
    ensures Power(x, 231) == 245
  {
    Alpha230(x);
    PowerStep(x, 230, 244, 15, 2, 0, 245);
  }

  lemma Alpha232(x: byte)
    requires x == 2
    ensures Power(x, 232) == 247
  {
    Alpha231(x);
    PowerStep(x, 231, 245, 15, 2, 1, 247);
  }

  lemma Alpha233(x: byte)
    requires x == 2
    ensures Power(x, 233) == 243
  {
    Alpha232(x);
    PowerStep(x, 232, 247, 15, 3, 1, 243);
  }

  lemma Alpha234(x: byte)
    requires x == 2
    ensures Power(x, 234) == 251
  {
    Alpha233(x);
    PowerStep(x, 233, 243, 15, 1, 1, 251);
  }

  lemma Alpha235(x: byte)
    requires x == 2
    ensures Power(x, 235) == 235
  {
    Alpha234(x);
    PowerStep(x, 234, 251, 15, 5, 1, 235);
  }

  lemma Alpha236(x: byte)
    requires x == 2
    ensures Power(x, 236) == 203
  {
    Alpha235(x);
    PowerStep(x, 235, 235, 14, 5, 1, 203);
  }

  lemma Alpha237(x: byte)
    requires x == 2
    ensures Power(x, 237) == 139
  {
    Alpha236(x);
    PowerStep(x, 236, 203, 12, 5, 1, 139);
  }

  lemma Alpha238(x: byte)
    requires x == 2
    ensures Power(x, 238) == 11
  {
    Alpha237(x);
    PowerStep(x, 237, 139, 8, 5, 1, 11);
  }

  lemma Alpha239(x: byte)
    requires x == 2
    ensures Power(x, 239) == 22
  {
    Alpha238(x);
    PowerStep(x, 238, 11, 0, 5, 1, 22);
  }

  lemma Alpha240(x: byte)
    requires x == 2
    ensures Power(x, 240) == 44
  {
    Alpha239(x);
    PowerStep(x, 239, 22, 1, 3, 0, 44);
  }

  lemma Alpha241(x: byte)
    requires x == 2
    ensures Power(x, 241) == 88
  {
    Alpha240(x);
    PowerStep(x, 240, 44, 2, 6, 0, 88);
  }

  lemma Alpha242(x: byte)
    requires x == 2
    ensures Power(x, 242) == 176
  {
    Alpha241(x);
    PowerStep(x, 241, 88, 5, 4, 0, 176);
  }

  lemma Alpha243(x: byte)
    requires x == 2
    ensures Power(x, 243) == 125
  {
    Alpha242(x);
    PowerStep(x, 242, 176, 11, 0, 0, 125);
  }

  lemma Alpha244(x: byte)
    requires x == 2
    ensures Power(x, 244) == 250
  {
    Alpha243(x);
    PowerStep(x, 243, 125, 7, 6, 1, 250);
  }

  lemma Alpha245(x: byte)
    requires x == 2
    ensures Power(x, 245) == 233
  {
    Alpha244(x);
    PowerStep(x, 244, 250, 15, 5, 0, 233);
  }

  lemma Alpha246(x: byte)
    requires x == 2
    ensures Power(x, 246) == 207
  {
    Alpha245(x);
    PowerStep(x, 245, 233, 14, 4, 1, 207);
  }

  lemma Alpha247(x: byte)
    requires x == 2
    ensures Power(x, 247) == 131
  {
    Alpha246(x);
    PowerStep(x, 246, 207, 12, 7, 1, 131);
  }

  lemma Alpha248(x: byte)
    requires x == 2
    ensures Power(x, 248) == 27
  {
    Alpha247(x);
    PowerStep(x, 247, 131, 8, 1, 1, 27);
  }

  lemma Alpha249(x: byte)
    requires x == 2
    ensures Power(x, 249) == 54
  {
    Alpha248(x);
    PowerStep(x, 248, 27, 1, 5, 1, 54);
  }

  lemma Alpha250(x: byte)
    requires x == 2
    ensures Power(x, 250) == 108
  {
    Alpha249(x);
    PowerStep(x, 249, 54, 3, 3, 0, 108);
  }

  lemma Alpha251(x: byte)
    requires x == 2
    ensures Power(x, 251) == 216
  {
    Alpha250(x);
    PowerStep(x, 250, 108, 6, 6, 0, 216);
  }

  lemma Alpha252(x: byte)
    requires x == 2
    ensures Power(x, 252) == 173
  {
    Alpha251(x);
    PowerStep(x, 251, 216, 13, 4, 0, 173);
  }

  lemma Alpha253(x: byte)
    requires x == 2
    ensures Power(x, 253) == 71
  {
    Alpha252(x);
    PowerStep(x, 252, 173, 10, 6, 1, 71);
  }

  lemma Alpha254(x: byte)
    requires x == 2
    ensures Power(x, 254) == 142
  {
    Alpha253(x);
    PowerStep(x, 253, 71, 4, 3, 1, 142);
  }

  lemma Alpha255(x: byte)
    requires x == 2
    ensures Power(x, 255) == 1
  {
    Alpha254(x);
    PowerStep(x, 254, 142, 8, 7, 0, 1);
  }

  lemma Covers0(x: byte, a: byte)
    requires x == 2 && 1 <= a < 8
    ensures exists e :: 0 <= e < 255 && Power(x, e) == a
  {
    Alpha0(x); Alpha1(x); Alpha25(x); Alpha2(x); Alpha50(x); Alpha26(x); Alpha198(x);
  }

  lemma Covers1(x: byte, a: byte)
    requires x == 2 && 8 <= a < 16
    ensures exists e :: 0 <= e < 255 && Power(x, e) == a
  {
    Alpha3(x); Alpha223(x); Alpha51(x); Alpha238(x); Alpha27(x); Alpha104(x); Alpha199(x); Alpha75(x);
  }

  lemma Covers2(x: byte, a: byte)
    requires x == 2 && 16 <= a < 24
    ensures exists e :: 0 <= e < 255 && Power(x, e) == a
  {
    Alpha4(x); Alpha100(x); Alpha224(x); Alpha14(x); Alpha52(x); Alpha141(x); Alpha239(x); Alpha129(x);
  }

  lemma Covers3(x: byte, a: byte)
    requires x == 2 && 24 <= a < 32
    ensures exists e :: 0 <= e < 255 && Power(x, e) == a
  {
    Alpha28(x); Alpha193(x); Alpha105(x); Alpha248(x); Alpha200(x); Alpha8(x); Alpha76(x); Alpha113(x);
  }

  lemma Covers4(x: byte, a: byte)
    requires x == 2 && 32 <= a < 40
    ensures exists e :: 0 <= e < 255 && Power(x, e) == a
  {
    Alpha5(x); Alpha138(x); Alpha101(x); Alpha47(x); Alpha225(x); Alpha36(x); Alpha15(x); Alpha33(x);
  }

  lemma Covers5(x: byte, a: byte)
    requires x == 2 && 40 <= a < 48
    ensures exists e :: 0 <= e < 255 && Power(x, e) == a
  {
    Alpha53(x); Alpha147(x); Alpha142(x); Alpha218(x); Alpha240(x); Alpha18(x); Alpha130(x); Alpha69(x);
  }

  lemma Covers6(x: byte, a: byte)
    requires x == 2 && 48 <= a < 56
    ensures exists e :: 0 <= e < 255 && Power(x, e) == a
  {
    Alpha29(x); Alpha181(x); Alpha194(x); Alpha125(x); Alpha106(x); Alpha39(x); Alpha249(x); Alpha185(x);
  }

  lemma Covers7(x: byte, a: byte)
    requires x == 2 && 56 <= a < 64
    ensures exists e :: 0 <= e < 255 && Power(x, e) == a
  {
    Alpha201(x); Alpha154(x); Alpha9(x); Alpha120(x); Alpha77(x); Alpha228(x); Alpha114(x); Alpha166(x);
  }

  lemma Covers8(x: byte, a: byte)
    requires x == 2 && 64 <= a < 72
    ensures exists e :: 0 <= e < 255 && Power(x, e) == a
  {
    Alpha6(x); Alpha191(x); Alpha139(x); Alpha98(x); Alpha102(x); Alpha221(x); Alpha48(x); Alpha253(x);
  }

  lemma Covers9(x: byte, a: byte)
    requires x == 2 && 72 <= a < 80
    ensures exists e :: 0 <= e < 255 && Power(x, e) == a
  {
    Alpha226(x); Alpha152(x); Alpha37(x); Alpha179(x); Alpha16(x); Alpha145(x); Alpha34(x); Alpha136(x);
  }

  lemma Covers10(x: byte, a: byte)
    requires x == 2 && 80 <= a < 88
    ensures exists e :: 0 <= e < 255 && Power(x, e) == a
  {
    Alpha54(x); Alpha208(x); Alpha148(x); Alpha206(x); Alpha143(x); Alpha150(x); Alpha219(x); Alpha189(x);
  }

  lemma Covers11(x: byte, a: byte)
    requires x == 2 && 88 <= a < 96
    ensures exists e :: 0 <= e < 255 && Power(x, e) == a
  {
    Alpha241(x); Alpha210(x); Alpha19(x); Alpha92(x); Alpha131(x); Alpha56(x); Alpha70(x); Alpha64(x);
  }

  lemma Covers12(x: byte, a: byte)
    requires x == 2 && 96 <= a < 104
    ensures exists e :: 0 <= e < 255 && Power(x, e) == a
  {
    Alpha30(x); Alpha66(x); Alpha182(x); Alpha163(x); Alpha195(x); Alpha72(x); Alpha126(x); Alpha110(x);
  }

  lemma Covers13(x: byte, a: byte)
    requires x == 2 && 104 <= a < 112
    ensures exists e :: 0 <= e < 255 && Power(x, e) == a
  {
    Alpha107(x); Alpha58(x); Alpha40(x); Alpha84(x); Alpha250(x); Alpha133(x); Alpha186(x); Alpha61(x);
  }

  lemma Covers14(x: byte, a: byte)
    requires x == 2 && 112 <= a < 120
    ensures exists e :: 0 <= e < 255 && Power(x, e) == a
  {
    Alpha202(x); Alpha94(x); Alpha155(x); Alpha159(x); Alpha10(x); Alpha21(x); Alpha121(x); Alpha43(x);
  }

  lemma Covers15(x: byte, a: byte)
    requires x == 2 && 120 <= a < 128
    ensures exists e :: 0 <= e < 255 && Power(x, e) == a
  {
    Alpha78(x); Alpha212(x); Alpha229(x); Alpha172(x); Alpha115(x); Alpha243(x); Alpha167(x); Alpha87(x);
  }

  lemma Covers16(x: byte, a: byte)
    requires x == 2 && 128 <= a < 136
    ensures exists e :: 0 <= e < 255 && Power(x, e) == a
  {
    Alpha7(x); Alpha112(x); Alpha192(x); Alpha247(x); Alpha140(x); Alpha128(x); Alpha99(x); Alpha13(x);
  }

  lemma Covers17(x: byte, a: byte)
    requires x == 2 && 136 <= a < 144
    ensures exists e :: 0 <= e < 255 && Power(x, e) == a
  {
    Alpha103(x); Alpha74(x); Alpha222(x); Alpha237(x); Alpha49(x); Alpha197(x); Alpha254(x); Alpha24(x);
  }

  lemma Covers18(x: byte, a: byte)
    requires x == 2 && 144 <= a < 152
    ensures exists e :: 0 <= e < 255 && Power(x, e) == a
  {
    Alpha227(x); Alpha165(x); Alpha153(x); Alpha119(x); Alpha38(x); Alpha184(x); Alpha180(x); Alpha124(x);
  }

  lemma Covers19(x: byte, a: byte)
    requires x == 2 && 152 <= a < 160
    ensures exists e :: 0 <= e < 255 && Power(x, e) == a
  {
    Alpha17(x); Alpha68(x); Alpha146(x); Alpha217(x); Alpha35(x); Alpha32(x); Alpha137(x); Alpha46(x);
  }

  lemma Covers20(x: byte, a: byte)
    requires x == 2 && 160 <= a < 168
    ensures exists e :: 0 <= e < 255 && Power(x, e) == a
  {
    Alpha55(x); Alpha63(x); Alpha209(x); Alpha91(x); Alpha149(x); Alpha188(x); Alpha207(x); Alpha205(x);
  }

  lemma Covers21(x: byte, a: byte)
    requires x == 2 && 168 <= a < 176
    ensures exists e :: 0 <= e < 255 && Power(x, e) == a
  {
    Alpha144(x); Alpha135(x); Alpha151(x); Alpha178(x); Alpha220(x); Alpha252(x); Alpha190(x); Alpha97(x);
  }

  lemma Covers22(x: byte, a: byte)
    requires x == 2 && 176 <= a < 184
    ensures exists e :: 0 <= e < 255 && Power(x, e) == a
  {
    Alpha242(x); Alpha86(x); Alpha211(x); Alpha171(x); Alpha20(x); Alpha42(x); Alpha93(x); Alpha158(x);
  }

  lemma Covers23(x: byte, a: byte)
    requires x == 2 && 184 <= a < 192
    ensures exists e :: 0 <= e < 255 && Power(x, e) == a
  {
    Alpha132(x); Alpha60(x); Alpha57(x); Alpha83(x); Alpha71(x); Alpha109(x); Alpha65(x); Alpha162(x);
  }

  lemma Covers24(x: byte, a: byte)
    requires x == 2 && 192 <= a < 200
    ensures exists e :: 0 <= e < 255 && Power(x, e) == a
  {
    Alpha31(x); Alpha45(x); Alpha67(x); Alpha216(x); Alpha183(x); Alpha123(x); Alpha164(x); Alpha118(x);
  }

  lemma Covers25(x: byte, a: byte)
    requires x == 2 && 200 <= a < 208
    ensures exists e :: 0 <= e < 255 && Power(x, e) == a
  {
    Alpha196(x); Alpha23(x); Alpha73(x); Alpha236(x); Alpha127(x); Alpha12(x); Alpha111(x); Alpha246(x);
  }

  lemma Covers26(x: byte, a: byte)
    requires x == 2 && 208 <= a < 216
    ensures exists e :: 0 <= e < 255 && Power(x, e) == a
  {
    Alpha108(x); Alpha161(x); Alpha59(x); Alpha82(x); Alpha41(x); Alpha157(x); Alpha85(x); Alpha170(x);
  }

  lemma Covers27(x: byte, a: byte)
    requires x == 2 && 216 <= a < 224
    ensures exists e :: 0 <= e < 255 && Power(x, e) == a
  {
    Alpha251(x); Alpha96(x); Alpha134(x); Alpha177(x); Alpha187(x); Alpha204(x); Alpha62(x); Alpha90(x);
  }

  lemma Covers28(x: byte, a: byte)
    requires x == 2 && 224 <= a < 232
    ensures exists e :: 0 <= e < 255 && Power(x, e) == a
  {
    Alpha203(x); Alpha89(x); Alpha95(x); Alpha176(x); Alpha156(x); Alpha169(x); Alpha160(x); Alpha81(x);
  }

  lemma Covers29(x: byte, a: byte)
    requires x == 2 && 232 <= a < 240
    ensures exists e :: 0 <= e < 255 && Power(x, e) == a
  {
    Alpha11(x); Alpha245(x); Alpha22(x); Alpha235(x); Alpha122(x); Alpha117(x); Alpha44(x); Alpha215(x);
  }

  lemma Covers30(x: byte, a: byte)
    requires x == 2 && 240 <= a < 248
    ensures exists e :: 0 <= e < 255 && Power(x, e) == a
  {
    Alpha79(x); Alpha174(x); Alpha213(x); Alpha233(x); Alpha230(x); Alpha231(x); Alpha173(x); Alpha232(x);
  }

  lemma Covers31(x: byte, a: byte)
    requires x == 2 && 248 <= a < 256
    ensures exists e :: 0 <= e < 255 && Power(x, e) == a
  {
    Alpha116(x); Alpha214(x); Alpha244(x); Alpha234(x); Alpha168(x); Alpha80(x); Alpha88(x); Alpha175(x);
  }

  /** alpha has order 255. */
  lemma PowerCycle(x: byte)
    requires x == 2
    ensures Power(x, 255) == 1
  {
    Alpha255(x);
  }

  /** alpha is primitive: every nonzero byte is alpha^e for some e below 255. */
  lemma Primitive(x: byte, a: byte)
    requires x == 2 && a != 0
    ensures exists e :: 0 <= e < 255 && Power(x, e) == a
  {
    if a < 128 {
      if a < 64 {
        if a < 32 {
          if a < 16 {
            if a < 8 {
              Covers0(x, a);
            } else {
              Covers1(x, a);
            }
          } else {
            if a < 24 {
              Covers2(x, a);
            } else {
              Covers3(x, a);
            }
          }
        } else {
          if a < 48 {
            if a < 40 {
              Covers4(x, a);
            } else {
              Covers5(x, a);
            }
          } else {
            if a < 56 {
              Covers6(x, a);
            } else {
              Covers7(x, a);
            }
          }
        }
      } else {
        if a < 96 {
          if a < 80 {
            if a < 72 {
              Covers8(x, a);
            } else {
              Covers9(x, a);
            }
          } else {
            if a < 88 {
              Covers10(x, a);
            } else {
              Covers11(x, a);
            }
          }
        } else {
          if a < 112 {
            if a < 104 {
              Covers12(x, a);
            } else {
              Covers13(x, a);
            }
          } else {
            if a < 120 {
              Covers14(x, a);
            } else {
              Covers15(x, a);
            }
          }
        }
      }
    } else {
      if a < 192 {
        if a < 160 {
          if a < 144 {
            if a < 136 {
              Covers16(x, a);
            } else {
              Covers17(x, a);
            }
          } else {
            if a < 152 {
              Covers18(x, a);
            } else {
              Covers19(x, a);
            }
          }
        } else {
          if a < 176 {
            if a < 168 {
              Covers20(x, a);
            } else {
              Covers21(x, a);
            }
          } else {
            if a < 184 {
              Covers22(x, a);
            } else {
              Covers23(x, a);
            }
          }
        }
      } else {
        if a < 224 {
          if a < 208 {
            if a < 200 {
              Covers24(x, a);
            } else {
              Covers25(x, a);
            }
          } else {
            if a < 216 {
              Covers26(x, a);
            } else {
              Covers27(x, a);
            }
          }
        } else {
          if a < 240 {
            if a < 232 {
              Covers28(x, a);
            } else {
              Covers29(x, a);
            }
          } else {
            if a < 248 {
              Covers30(x, a);
            } else {
              Covers31(x, a);
            }
          }
        }
      }
    }
  }

  lemma NotOne0(x: byte, e: nat)
    requires x == 2 && 1 <= e < 8
    ensures Power(x, e) != 1
  {
    Alpha1(x); Alpha2(x); Alpha3(x); Alpha4(x); Alpha5(x); Alpha6(x); Alpha7(x);
    assert e == 1 || e == 2 || e == 3 || e == 4 || e == 5 || e == 6 || e == 7;
  }

  lemma NotOne1(x: byte, e: nat)
    requires x == 2 && 8 <= e < 16
    ensures Power(x, e) != 1
  {
    Alpha8(x); Alpha9(x); Alpha10(x); Alpha11(x); Alpha12(x); Alpha13(x); Alpha14(x); Alpha15(x);
    assert e == 8 || e == 9 || e == 10 || e == 11 || e == 12 || e == 13 || e == 14 || e == 15;
  }

  lemma NotOne2(x: byte, e: nat)
    requires x == 2 && 16 <= e < 24
    ensures Power(x, e) != 1
  {
    Alpha16(x); Alpha17(x); Alpha18(x); Alpha19(x); Alpha20(x); Alpha21(x); Alpha22(x); Alpha23(x);
    assert e == 16 || e == 17 || e == 18 || e == 19 || e == 20 || e == 21 || e == 22 || e == 23;
  }

  lemma NotOne3(x: byte, e: nat)
    requires x == 2 && 24 <= e < 32
    ensures Power(x, e) != 1
  {
    Alpha24(x); Alpha25(x); Alpha26(x); Alpha27(x); Alpha28(x); Alpha29(x); Alpha30(x); Alpha31(x);
    assert e == 24 || e == 25 || e == 26 || e == 27 || e == 28 || e == 29 || e == 30 || e == 31;
  }

  lemma NotOne4(x: byte, e: nat)
    requires x == 2 && 32 <= e < 40
    ensures Power(x, e) != 1
  {
    Alpha32(x); Alpha33(x); Alpha34(x); Alpha35(x); Alpha36(x); Alpha37(x); Alpha38(x); Alpha39(x);
    assert e == 32 || e == 33 || e == 34 || e == 35 || e == 36 || e == 37 || e == 38 || e == 39;
  }

  lemma NotOne5(x: byte, e: nat)
    requires x == 2 && 40 <= e < 48
    ensures Power(x, e) != 1
  {
    Alpha40(x); Alpha41(x); Alpha42(x); Alpha43(x); Alpha44(x); Alpha45(x); Alpha46(x); Alpha47(x);
    assert e == 40 || e == 41 || e == 42 || e == 43 || e == 44 || e == 45 || e == 46 || e == 47;
  }

  lemma NotOne6(x: byte, e: nat)
    requires x == 2 && 48 <= e < 56
    ensures Power(x, e) != 1
  {
    Alpha48(x); Alpha49(x); Alpha50(x); Alpha51(x); Alpha52(x); Alpha53(x); Alpha54(x); Alpha55(x);
    assert e == 48 || e == 49 || e == 50 || e == 51 || e == 52 || e == 53 || e == 54 || e == 55;
  }

  lemma NotOne7(x: byte, e: nat)
    requires x == 2 && 56 <= e < 64
    ensures Power(x, e) != 1
  {
    Alpha56(x); Alpha57(x); Alpha58(x); Alpha59(x); Alpha60(x); Alpha61(x); Alpha62(x); Alpha63(x);
    assert e == 56 || e == 57 || e == 58 || e == 59 || e == 60 || e == 61 || e == 62 || e == 63;
  }

  lemma NotOne8(x: byte, e: nat)
    requires x == 2 && 64 <= e < 72
    ensures Power(x, e) != 1
  {
    Alpha64(x); Alpha65(x); Alpha66(x); Alpha67(x); Alpha68(x); Alpha69(x); Alpha70(x); Alpha71(x);
    assert e == 64 || e == 65 || e == 66 || e == 67 || e == 68 || e == 69 || e == 70 || e == 71;
  }

  lemma NotOne9(x: byte, e: nat)
    requires x == 2 && 72 <= e < 80
    ensures Power(x, e) != 1
  {
    Alpha72(x); Alpha73(x); Alpha74(x); Alpha75(x); Alpha76(x); Alpha77(x); Alpha78(x); Alpha79(x);
    assert e == 72 || e == 73 || e == 74 || e == 75 || e == 76 || e == 77 || e == 78 || e == 79;
  }

  lemma NotOne10(x: byte, e: nat)
    requires x == 2 && 80 <= e < 88
    ensures Power(x, e) != 1
  {
    Alpha80(x); Alpha81(x); Alpha82(x); Alpha83(x); Alpha84(x); Alpha85(x); Alpha86(x); Alpha87(x);
    assert e == 80 || e == 81 || e == 82 || e == 83 || e == 84 || e == 85 || e == 86 || e == 87;
  }

  lemma NotOne11(x: byte, e: nat)
    requires x == 2 && 88 <= e < 96
    ensures Power(x, e) != 1
  {
    Alpha88(x); Alpha89(x); Alpha90(x); Alpha91(x); Alpha92(x); Alpha93(x); Alpha94(x); Alpha95(x);
    assert e == 88 || e == 89 || e == 90 || e == 91 || e == 92 || e == 93 || e == 94 || e == 95;
  }

  lemma NotOne12(x: byte, e: nat)
    requires x == 2 && 96 <= e < 104
    ensures Power(x, e) != 1
  {
    Alpha96(x); Alpha97(x); Alpha98(x); Alpha99(x); Alpha100(x); Alpha101(x); Alpha102(x); Alpha103(x);
    assert e == 96 || e == 97 || e == 98 || e == 99 || e == 100 || e == 101 || e == 102 || e == 103;
  }

  lemma NotOne13(x: byte, e: nat)
    requires x == 2 && 104 <= e < 112
    ensures Power(x, e) != 1
  {
    Alpha104(x); Alpha105(x); Alpha106(x); Alpha107(x); Alpha108(x); Alpha109(x); Alpha110(x); Alpha111(x);
    assert e == 104 || e == 105 || e == 106 || e == 107 || e == 108 || e == 109 || e == 110 || e == 111;
  }

  lemma NotOne14(x: byte, e: nat)
    requires x == 2 && 112 <= e < 120
    ensures Power(x, e) != 1
  {
    Alpha112(x); Alpha113(x); Alpha114(x); Alpha115(x); Alpha116(x); Alpha117(x); Alpha118(x); Alpha119(x);
    assert e == 112 || e == 113 || e == 114 || e == 115 || e == 116 || e == 117 || e == 118 || e == 119;
  }

  lemma NotOne15(x: byte, e: nat)
    requires x == 2 && 120 <= e < 128
    ensures Power(x, e) != 1
  {
    Alpha120(x); Alpha121(x); Alpha122(x); Alpha123(x); Alpha124(x); Alpha125(x); Alpha126(x); Alpha127(x);
    assert e == 120 || e == 121 || e == 122 || e == 123 || e == 124 || e == 125 || e == 126 || e == 127;
  }

  lemma NotOne16(x: byte, e: nat)
    requires x == 2 && 128 <= e < 136
    ensures Power(x, e) != 1
  {
    Alpha128(x); Alpha129(x); Alpha130(x); Alpha131(x); Alpha132(x); Alpha133(x); Alpha134(x); Alpha135(x);
    assert e == 128 || e == 129 || e == 130 || e == 131 || e == 132 || e == 133 || e == 134 || e == 135;
  }

  lemma NotOne17(x: byte, e: nat)
    requires x == 2 && 136 <= e < 144
    ensures Power(x, e) != 1
  {
    Alpha136(x); Alpha137(x); Alpha138(x); Alpha139(x); Alpha140(x); Alpha141(x); Alpha142(x); Alpha143(x);
    assert e == 136 || e == 137 || e == 138 || e == 139 || e == 140 || e == 141 || e == 142 || e == 143;
  }

  lemma NotOne18(x: byte, e: nat)
    requires x == 2 && 144 <= e < 152
    ensures Power(x, e) != 1
  {
    Alpha144(x); Alpha145(x); Alpha146(x); Alpha147(x); Alpha148(x); Alpha149(x); Alpha150(x); Alpha151(x);
    assert e == 144 || e == 145 || e == 146 || e == 147 || e == 148 || e == 149 || e == 150 || e == 151;
  }

  lemma NotOne19(x: byte, e: nat)
    requires x == 2 && 152 <= e < 160
    ensures Power(x, e) != 1
  {
    Alpha152(x); Alpha153(x); Alpha154(x); Alpha155(x); Alpha156(x); Alpha157(x); Alpha158(x); Alpha159(x);
    assert e == 152 || e == 153 || e == 154 || e == 155 || e == 156 || e == 157 || e == 158 || e == 159;
  }

  lemma NotOne20(x: byte, e: nat)
    requires x == 2 && 160 <= e < 168
    ensures Power(x, e) != 1
  {
    Alpha160(x); Alpha161(x); Alpha162(x); Alpha163(x); Alpha164(x); Alpha165(x); Alpha166(x); Alpha167(x);
    assert e == 160 || e == 161 || e == 162 || e == 163 || e == 164 || e == 165 || e == 166 || e == 167;
  }

  lemma NotOne21(x: byte, e: nat)
    requires x == 2 && 168 <= e < 176
    ensures Power(x, e) != 1
  {
    Alpha168(x); Alpha169(x); Alpha170(x); Alpha171(x); Alpha172(x); Alpha173(x); Alpha174(x); Alpha175(x);
    assert e == 168 || e == 169 || e == 170 || e == 171 || e == 172 || e == 173 || e == 174 || e == 175;
  }

  lemma NotOne22(x: byte, e: nat)
    requires x == 2 && 176 <= e < 184
    ensures Power(x, e) != 1
  {
    Alpha176(x); Alpha177(x); Alpha178(x); Alpha179(x); Alpha180(x); Alpha181(x); Alpha182(x); Alpha183(x);
    assert e == 176 || e == 177 || e == 178 || e == 179 || e == 180 || e == 181 || e == 182 || e == 183;
  }

  lemma NotOne23(x: byte, e: nat)
    requires x == 2 && 184 <= e < 192
    ensures Power(x, e) != 1
  {
    Alpha184(x); Alpha185(x); Alpha186(x); Alpha187(x); Alpha188(x); Alpha189(x); Alpha190(x); Alpha191(x);
    assert e == 184 || e == 185 || e == 186 || e == 187 || e == 188 || e == 189 || e == 190 || e == 191;
  }

  lemma NotOne24(x: byte, e: nat)
    requires x == 2 && 192 <= e < 200
    ensures Power(x, e) != 1
  {
    Alpha192(x); Alpha193(x); Alpha194(x); Alpha195(x); Alpha196(x); Alpha197(x); Alpha198(x); Alpha199(x);
    assert e == 192 || e == 193 || e == 194 || e == 195 || e == 196 || e == 197 || e == 198 || e == 199;
  }

  lemma NotOne25(x: byte, e: nat)
    requires x == 2 && 200 <= e < 208
    ensures Power(x, e) != 1
  {
    Alpha200(x); Alpha201(x); Alpha202(x); Alpha203(x); Alpha204(x); Alpha205(x); Alpha206(x); Alpha207(x);
    assert e == 200 || e == 201 || e == 202 || e == 203 || e == 204 || e == 205 || e == 206 || e == 207;
  }

  lemma NotOne26(x: byte, e: nat)
    requires x == 2 && 208 <= e < 216
    ensures Power(x, e) != 1
  {
    Alpha208(x); Alpha209(x); Alpha210(x); Alpha211(x); Alpha212(x); Alpha213(x); Alpha214(x); Alpha215(x);
    assert e == 208 || e == 209 || e == 210 || e == 211 || e == 212 || e == 213 || e == 214 || e == 215;
  }

  lemma NotOne27(x: byte, e: nat)
    requires x == 2 && 216 <= e < 224
    ensures Power(x, e) != 1
  {
    Alpha216(x); Alpha217(x); Alpha218(x); Alpha219(x); Alpha220(x); Alpha221(x); Alpha222(x); Alpha223(x);
    assert e == 216 || e == 217 || e == 218 || e == 219 || e == 220 || e == 221 || e == 222 || e == 223;
  }

  lemma NotOne28(x: byte, e: nat)
    requires x == 2 && 224 <= e < 232
    ensures Power(x, e) != 1
  {
    Alpha224(x); Alpha225(x); Alpha226(x); Alpha227(x); Alpha228(x); Alpha229(x); Alpha230(x); Alpha231(x);
    assert e == 224 || e == 225 || e == 226 || e == 227 || e == 228 || e == 229 || e == 230 || e == 231;
  }

  lemma NotOne29(x: byte, e: nat)
    requires x == 2 && 232 <= e < 240
    ensures Power(x, e) != 1
  {
    Alpha232(x); Alpha233(x); Alpha234(x); Alpha235(x); Alpha236(x); Alpha237(x); Alpha238(x); Alpha239(x);
    assert e == 232 || e == 233 || e == 234 || e == 235 || e == 236 || e == 237 || e == 238 || e == 239;
  }

  lemma NotOne30(x: byte, e: nat)
    requires x == 2 && 240 <= e < 248
    ensures Power(x, e) != 1
  {
    Alpha240(x); Alpha241(x); Alpha242(x); Alpha243(x); Alpha244(x); Alpha245(x); Alpha246(x); Alpha247(x);
    assert e == 240 || e == 241 || e == 242 || e == 243 || e == 244 || e == 245 || e == 246 || e == 247;
  }

  lemma NotOne31(x: byte, e: nat)
    requires x == 2 && 248 <= e < 255
    ensures Power(x, e) != 1
  {
    Alpha248(x); Alpha249(x); Alpha250(x); Alpha251(x); Alpha252(x); Alpha253(x); Alpha254(x);
    assert e == 248 || e == 249 || e == 250 || e == 251 || e == 252 || e == 253 || e == 254;
  }

  /** alpha has order exactly 255: no smaller positive power of alpha is 1. */
  lemma Order(x: byte, e: nat)
    requires x == 2 && 0 < e < 255
    ensures Power(x, e) != 1
  {
    if e < 128 {
      if e < 64 {
        if e < 32 {
          if e < 16 {
            if e < 8 {
              NotOne0(x, e);
            } else {
              NotOne1(x, e);
            }
          } else {
            if e < 24 {
              NotOne2(x, e);
            } else {
              NotOne3(x, e);
            }
          }
        } else {
          if e < 48 {
            if e < 40 {
              NotOne4(x, e);
            } else {
              NotOne5(x, e);
            }
          } else {
            if e < 56 {
              NotOne6(x, e);
            } else {
              NotOne7(x, e);
            }
          }
        }
      } else {
        if e < 96 {
          if e < 80 {
            if e < 72 {
              NotOne8(x, e);
            } else {
              NotOne9(x, e);
            }
          } else {
            if e < 88 {
              NotOne10(x, e);
            } else {
              NotOne11(x, e);
            }
          }
        } else {
          if e < 112 {
            if e < 104 {
              NotOne12(x, e);
            } else {
              NotOne13(x, e);
            }
          } else {
            if e < 120 {
              NotOne14(x, e);
            } else {
              NotOne15(x, e);
            }
          }
        }
      }
    } else {
      if e < 192 {
        if e < 160 {
          if e < 144 {
            if e < 136 {
              NotOne16(x, e);
            } else {
              NotOne17(x, e);
            }
          } else {
            if e < 152 {
              NotOne18(x, e);
            } else {
              NotOne19(x, e);
            }
          }
        } else {
          if e < 176 {
            if e < 168 {
              NotOne20(x, e);
            } else {
              NotOne21(x, e);
            }
          } else {
            if e < 184 {
              NotOne22(x, e);
            } else {
              NotOne23(x, e);
            }
          }
        }
      } else {
        if e < 224 {
          if e < 208 {
            if e < 200 {
              NotOne24(x, e);
            } else {
              NotOne25(x, e);
            }
          } else {
            if e < 216 {
              NotOne26(x, e);
            } else {
              NotOne27(x, e);
            }
          }
        } else {
          if e < 240 {
            if e < 232 {
              NotOne28(x, e);
            } else {
              NotOne29(x, e);
            }
          } else {
            if e < 248 {
              NotOne30(x, e);
            } else {
              NotOne31(x, e);
            }
          }
        }
      }
    }
  }
}
