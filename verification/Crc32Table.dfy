/**
 The 256-entry table of the CRC, and the proof that entry i is i pushed through
 eight steps of bitwise division by the reflected CRC-32C polynomial.

 The table is a function on bytes, sixteen entries to a row, so that an index
 can never leave 0..255. Each row's contract says what its entries are.
 */
module Crc32Table {

  // x^32 + x^28 + x^27 + ... + 1 with the coefficient of x^31 in bit 0 is 0x82F63B78.

  // Divides one coefficient out of the register.
  function BitStep(s: bv32): bv32 {
    if s & 1 == 1 then (s >> 1) ^ 0x82F63B78 else s >> 1
  }

  function TwoSteps(s: bv32): bv32 { BitStep(BitStep(s)) }

  function FourSteps(s: bv32): bv32 { TwoSteps(TwoSteps(s)) }

  function EightSteps(s: bv32): bv32 { FourSteps(FourSteps(s)) }

  function CrcTable(i: bv8): (entry: bv32)
    ensures entry == EightSteps(i as bv32)
  {
    var j := i & 0xF;
    match i >> 4
    case 0 => assert i == 0 + j; Row0(j)
    case 1 => assert i == 16 + j; Row1(j)
    case 2 => assert i == 32 + j; Row2(j)
    case 3 => assert i == 48 + j; Row3(j)
    case 4 => assert i == 64 + j; Row4(j)
    case 5 => assert i == 80 + j; Row5(j)
    case 6 => assert i == 96 + j; Row6(j)
    case 7 => assert i == 112 + j; Row7(j)
    case 8 => assert i == 128 + j; Row8(j)
    case 9 => assert i == 144 + j; Row9(j)
    case 10 => assert i == 160 + j; Row10(j)
    case 11 => assert i == 176 + j; Row11(j)
    case 12 => assert i == 192 + j; Row12(j)
    case 13 => assert i == 208 + j; Row13(j)
    case 14 => assert i == 224 + j; Row14(j)
    case _ => assert i == 240 + j; Row15(j)
  }

  function Row0(j: bv8): (entry: bv32)
    requires j < 16
    ensures entry == EightSteps(0 + (j as bv32))
  {
    match j
    case 0 => 0x00000000 case 1 => 0xF26B8303 case 2 => 0xE13B70F7 case 3 => 0x1350F3F4
    case 4 => 0xC79A971F case 5 => 0x35F1141C case 6 => 0x26A1E7E8 case 7 => 0xD4CA64EB
    case 8 => 0x8AD958CF case 9 => 0x78B2DBCC case 10 => 0x6BE22838 case 11 => 0x9989AB3B
    case 12 => 0x4D43CFD0 case 13 => 0xBF284CD3 case 14 => 0xAC78BF27 case _ => 0x5E133C24
  }

  function Row1(j: bv8): (entry: bv32)
    requires j < 16
    ensures entry == EightSteps(16 + (j as bv32))
  {
    match j
    case 0 => 0x105EC76F case 1 => 0xE235446C case 2 => 0xF165B798 case 3 => 0x030E349B
    case 4 => 0xD7C45070 case 5 => 0x25AFD373 case 6 => 0x36FF2087 case 7 => 0xC494A384
    case 8 => 0x9A879FA0 case 9 => 0x68EC1CA3 case 10 => 0x7BBCEF57 case 11 => 0x89D76C54
    case 12 => 0x5D1D08BF case 13 => 0xAF768BBC case 14 => 0xBC267848 case _ => 0x4E4DFB4B
  }

  function Row2(j: bv8): (entry: bv32)
    requires j < 16
    ensures entry == EightSteps(32 + (j as bv32))
  {
    match j
    case 0 => 0x20BD8EDE case 1 => 0xD2D60DDD case 2 => 0xC186FE29 case 3 => 0x33ED7D2A
    case 4 => 0xE72719C1 case 5 => 0x154C9AC2 case 6 => 0x061C6936 case 7 => 0xF477EA35
    case 8 => 0xAA64D611 case 9 => 0x580F5512 case 10 => 0x4B5FA6E6 case 11 => 0xB93425E5
    case 12 => 0x6DFE410E case 13 => 0x9F95C20D case 14 => 0x8CC531F9 case _ => 0x7EAEB2FA
  }

  function Row3(j: bv8): (entry: bv32)
    requires j < 16
    ensures entry == EightSteps(48 + (j as bv32))
  {
    match j
    case 0 => 0x30E349B1 case 1 => 0xC288CAB2 case 2 => 0xD1D83946 case 3 => 0x23B3BA45
    case 4 => 0xF779DEAE case 5 => 0x05125DAD case 6 => 0x1642AE59 case 7 => 0xE4292D5A
    case 8 => 0xBA3A117E case 9 => 0x4851927D case 10 => 0x5B016189 case 11 => 0xA96AE28A
    case 12 => 0x7DA08661 case 13 => 0x8FCB0562 case 14 => 0x9C9BF696 case _ => 0x6EF07595
  }

  function Row4(j: bv8): (entry: bv32)
    requires j < 16
    ensures entry == EightSteps(64 + (j as bv32))
  {
    match j
    case 0 => 0x417B1DBC case 1 => 0xB3109EBF case 2 => 0xA0406D4B case 3 => 0x522BEE48
    case 4 => 0x86E18AA3 case 5 => 0x748A09A0 case 6 => 0x67DAFA54 case 7 => 0x95B17957
    case 8 => 0xCBA24573 case 9 => 0x39C9C670 case 10 => 0x2A993584 case 11 => 0xD8F2B687
    case 12 => 0x0C38D26C case 13 => 0xFE53516F case 14 => 0xED03A29B case _ => 0x1F682198
  }

  function Row5(j: bv8): (entry: bv32)
    requires j < 16
    ensures entry == EightSteps(80 + (j as bv32))
  {
    match j
    case 0 => 0x5125DAD3 case 1 => 0xA34E59D0 case 2 => 0xB01EAA24 case 3 => 0x42752927
    case 4 => 0x96BF4DCC case 5 => 0x64D4CECF case 6 => 0x77843D3B case 7 => 0x85EFBE38
    case 8 => 0xDBFC821C case 9 => 0x2997011F case 10 => 0x3AC7F2EB case 11 => 0xC8AC71E8
    case 12 => 0x1C661503 case 13 => 0xEE0D9600 case 14 => 0xFD5D65F4 case _ => 0x0F36E6F7
  }

  function Row6(j: bv8): (entry: bv32)
    requires j < 16
    ensures entry == EightSteps(96 + (j as bv32))
  {
    match j
    case 0 => 0x61C69362 case 1 => 0x93AD1061 case 2 => 0x80FDE395 case 3 => 0x72966096
    case 4 => 0xA65C047D case 5 => 0x5437877E case 6 => 0x4767748A case 7 => 0xB50CF789
    case 8 => 0xEB1FCBAD case 9 => 0x197448AE case 10 => 0x0A24BB5A case 11 => 0xF84F3859
    case 12 => 0x2C855CB2 case 13 => 0xDEEEDFB1 case 14 => 0xCDBE2C45 case _ => 0x3FD5AF46
  }

  function Row7(j: bv8): (entry: bv32)
    requires j < 16
    ensures entry == EightSteps(112 + (j as bv32))
  {
    match j
    case 0 => 0x7198540D case 1 => 0x83F3D70E case 2 => 0x90A324FA case 3 => 0x62C8A7F9
    case 4 => 0xB602C312 case 5 => 0x44694011 case 6 => 0x5739B3E5 case 7 => 0xA55230E6
    case 8 => 0xFB410CC2 case 9 => 0x092A8FC1 case 10 => 0x1A7A7C35 case 11 => 0xE811FF36
    case 12 => 0x3CDB9BDD case 13 => 0xCEB018DE case 14 => 0xDDE0EB2A case _ => 0x2F8B6829
  }

  function Row8(j: bv8): (entry: bv32)
    requires j < 16
    ensures entry == EightSteps(128 + (j as bv32))
  {
    match j
    case 0 => 0x82F63B78 case 1 => 0x709DB87B case 2 => 0x63CD4B8F case 3 => 0x91A6C88C
    case 4 => 0x456CAC67 case 5 => 0xB7072F64 case 6 => 0xA457DC90 case 7 => 0x563C5F93
    case 8 => 0x082F63B7 case 9 => 0xFA44E0B4 case 10 => 0xE9141340 case 11 => 0x1B7F9043
    case 12 => 0xCFB5F4A8 case 13 => 0x3DDE77AB case 14 => 0x2E8E845F case _ => 0xDCE5075C
  }

  function Row9(j: bv8): (entry: bv32)
    requires j < 16
    ensures entry == EightSteps(144 + (j as bv32))
  {
    match j
    case 0 => 0x92A8FC17 case 1 => 0x60C37F14 case 2 => 0x73938CE0 case 3 => 0x81F80FE3
    case 4 => 0x55326B08 case 5 => 0xA759E80B case 6 => 0xB4091BFF case 7 => 0x466298FC
    case 8 => 0x1871A4D8 case 9 => 0xEA1A27DB case 10 => 0xF94AD42F case 11 => 0x0B21572C
    case 12 => 0xDFEB33C7 case 13 => 0x2D80B0C4 case 14 => 0x3ED04330 case _ => 0xCCBBC033
  }

  function Row10(j: bv8): (entry: bv32)
    requires j < 16
    ensures entry == EightSteps(160 + (j as bv32))
  {
    match j
    case 0 => 0xA24BB5A6 case 1 => 0x502036A5 case 2 => 0x4370C551 case 3 => 0xB11B4652
    case 4 => 0x65D122B9 case 5 => 0x97BAA1BA case 6 => 0x84EA524E case 7 => 0x7681D14D
    case 8 => 0x2892ED69 case 9 => 0xDAF96E6A case 10 => 0xC9A99D9E case 11 => 0x3BC21E9D
    case 12 => 0xEF087A76 case 13 => 0x1D63F975 case 14 => 0x0E330A81 case _ => 0xFC588982
  }

  function Row11(j: bv8): (entry: bv32)
    requires j < 16
    ensures entry == EightSteps(176 + (j as bv32))
  {
    match j
    case 0 => 0xB21572C9 case 1 => 0x407EF1CA case 2 => 0x532E023E case 3 => 0xA145813D
    case 4 => 0x758FE5D6 case 5 => 0x87E466D5 case 6 => 0x94B49521 case 7 => 0x66DF1622
    case 8 => 0x38CC2A06 case 9 => 0xCAA7A905 case 10 => 0xD9F75AF1 case 11 => 0x2B9CD9F2
    case 12 => 0xFF56BD19 case 13 => 0x0D3D3E1A case 14 => 0x1E6DCDEE case _ => 0xEC064EED
  }

  function Row12(j: bv8): (entry: bv32)
    requires j < 16
    ensures entry == EightSteps(192 + (j as bv32))
  {
    match j
    case 0 => 0xC38D26C4 case 1 => 0x31E6A5C7 case 2 => 0x22B65633 case 3 => 0xD0DDD530
    case 4 => 0x0417B1DB case 5 => 0xF67C32D8 case 6 => 0xE52CC12C case 7 => 0x1747422F
    case 8 => 0x49547E0B case 9 => 0xBB3FFD08 case 10 => 0xA86F0EFC case 11 => 0x5A048DFF
    case 12 => 0x8ECEE914 case 13 => 0x7CA56A17 case 14 => 0x6FF599E3 case _ => 0x9D9E1AE0
  }

  function Row13(j: bv8): (entry: bv32)
    requires j < 16
    ensures entry == EightSteps(208 + (j as bv32))
  {
    match j
    case 0 => 0xD3D3E1AB case 1 => 0x21B862A8 case 2 => 0x32E8915C case 3 => 0xC083125F
    case 4 => 0x144976B4 case 5 => 0xE622F5B7 case 6 => 0xF5720643 case 7 => 0x07198540
    case 8 => 0x590AB964 case 9 => 0xAB613A67 case 10 => 0xB831C993 case 11 => 0x4A5A4A90
    case 12 => 0x9E902E7B case 13 => 0x6CFBAD78 case 14 => 0x7FAB5E8C case _ => 0x8DC0DD8F
  }

  function Row14(j: bv8): (entry: bv32)
    requires j < 16
    ensures entry == EightSteps(224 + (j as bv32))
  {
    match j
    case 0 => 0xE330A81A case 1 => 0x115B2B19 case 2 => 0x020BD8ED case 3 => 0xF0605BEE
    case 4 => 0x24AA3F05 case 5 => 0xD6C1BC06 case 6 => 0xC5914FF2 case 7 => 0x37FACCF1
    case 8 => 0x69E9F0D5 case 9 => 0x9B8273D6 case 10 => 0x88D28022 case 11 => 0x7AB90321
    case 12 => 0xAE7367CA case 13 => 0x5C18E4C9 case 14 => 0x4F48173D case _ => 0xBD23943E
  }

  function Row15(j: bv8): (entry: bv32)
    requires j < 16
    ensures entry == EightSteps(240 + (j as bv32))
  {
    match j
    case 0 => 0xF36E6F75 case 1 => 0x0105EC76 case 2 => 0x12551F82 case 3 => 0xE03E9C81
    case 4 => 0x34F4F86A case 5 => 0xC69F7B69 case 6 => 0xD5CF889D case 7 => 0x27A40B9E
    case 8 => 0x79B737BA case 9 => 0x8BDCB4B9 case 10 => 0x988C474D case 11 => 0x6AE7C44E
    case 12 => 0xBE2DA0A5 case 13 => 0x4C4623A6 case 14 => 0x5F16D052 case _ => 0xAD7D5351
  }
}
