/** crc32.c: the table that shortens eight steps of the shift register to one. */
module Crc32Table {

  const POLYNOMIAL: bv32 := 0xEDB88320

  /** One step of the register, low bit first. */
  function Step(c: bv32): bv32 {
    if c & 1 == 1 then (c >> 1) ^ POLYNOMIAL else c >> 1
  }

  function Step4(c: bv32): bv32 {
    Step(Step(Step(Step(c))))
  }

  function Step8(c: bv32): bv32 {
    Step4(Step4(c))
  }

  function Row0(i: bv32): bv32 {
    match i
    case 0x0 => 0x00000000
    case 0x1 => 0x77073096
    case 0x2 => 0xEE0E612C
    case 0x3 => 0x990951BA
    case 0x4 => 0x076DC419
    case 0x5 => 0x706AF48F
    case 0x6 => 0xE963A535
    case 0x7 => 0x9E6495A3
    case 0x8 => 0x0EDB8832
    case 0x9 => 0x79DCB8A4
    case 0xa => 0xE0D5E91E
    case 0xb => 0x97D2D988
    case 0xc => 0x09B64C2B
    case 0xd => 0x7EB17CBD
    case 0xe => 0xE7B82D07
    case _ => 0x90BF1D91
  }

  function Row1(i: bv32): bv32 {
    match i
    case 0x10 => 0x1DB71064
    case 0x11 => 0x6AB020F2
    case 0x12 => 0xF3B97148
    case 0x13 => 0x84BE41DE
    case 0x14 => 0x1ADAD47D
    case 0x15 => 0x6DDDE4EB
    case 0x16 => 0xF4D4B551
    case 0x17 => 0x83D385C7
    case 0x18 => 0x136C9856
    case 0x19 => 0x646BA8C0
    case 0x1a => 0xFD62F97A
    case 0x1b => 0x8A65C9EC
    case 0x1c => 0x14015C4F
    case 0x1d => 0x63066CD9
    case 0x1e => 0xFA0F3D63
    case _ => 0x8D080DF5
  }

  function Row2(i: bv32): bv32 {
    match i
    case 0x20 => 0x3B6E20C8
    case 0x21 => 0x4C69105E
    case 0x22 => 0xD56041E4
    case 0x23 => 0xA2677172
    case 0x24 => 0x3C03E4D1
    case 0x25 => 0x4B04D447
    case 0x26 => 0xD20D85FD
    case 0x27 => 0xA50AB56B
    case 0x28 => 0x35B5A8FA
    case 0x29 => 0x42B2986C
    case 0x2a => 0xDBBBC9D6
    case 0x2b => 0xACBCF940
    case 0x2c => 0x32D86CE3
    case 0x2d => 0x45DF5C75
    case 0x2e => 0xDCD60DCF
    case _ => 0xABD13D59
  }

  function Row3(i: bv32): bv32 {
    match i
    case 0x30 => 0x26D930AC
    case 0x31 => 0x51DE003A
    case 0x32 => 0xC8D75180
    case 0x33 => 0xBFD06116
    case 0x34 => 0x21B4F4B5
    case 0x35 => 0x56B3C423
    case 0x36 => 0xCFBA9599
    case 0x37 => 0xB8BDA50F
    case 0x38 => 0x2802B89E
    case 0x39 => 0x5F058808
    case 0x3a => 0xC60CD9B2
    case 0x3b => 0xB10BE924
    case 0x3c => 0x2F6F7C87
    case 0x3d => 0x58684C11
    case 0x3e => 0xC1611DAB
    case _ => 0xB6662D3D
  }

  function Row4(i: bv32): bv32 {
    match i
    case 0x40 => 0x76DC4190
    case 0x41 => 0x01DB7106
    case 0x42 => 0x98D220BC
    case 0x43 => 0xEFD5102A
    case 0x44 => 0x71B18589
    case 0x45 => 0x06B6B51F
    case 0x46 => 0x9FBFE4A5
    case 0x47 => 0xE8B8D433
    case 0x48 => 0x7807C9A2
    case 0x49 => 0x0F00F934
    case 0x4a => 0x9609A88E
    case 0x4b => 0xE10E9818
    case 0x4c => 0x7F6A0DBB
    case 0x4d => 0x086D3D2D
    case 0x4e => 0x91646C97
    case _ => 0xE6635C01
  }

  function Row5(i: bv32): bv32 {
    match i
    case 0x50 => 0x6B6B51F4
    case 0x51 => 0x1C6C6162
    case 0x52 => 0x856530D8
    case 0x53 => 0xF262004E
    case 0x54 => 0x6C0695ED
    case 0x55 => 0x1B01A57B
    case 0x56 => 0x8208F4C1
    case 0x57 => 0xF50FC457
    case 0x58 => 0x65B0D9C6
    case 0x59 => 0x12B7E950
    case 0x5a => 0x8BBEB8EA
    case 0x5b => 0xFCB9887C
    case 0x5c => 0x62DD1DDF
    case 0x5d => 0x15DA2D49
    case 0x5e => 0x8CD37CF3
    case _ => 0xFBD44C65
  }

  function Row6(i: bv32): bv32 {
    match i
    case 0x60 => 0x4DB26158
    case 0x61 => 0x3AB551CE
    case 0x62 => 0xA3BC0074
    case 0x63 => 0xD4BB30E2
    case 0x64 => 0x4ADFA541
    case 0x65 => 0x3DD895D7
    case 0x66 => 0xA4D1C46D
    case 0x67 => 0xD3D6F4FB
    case 0x68 => 0x4369E96A
    case 0x69 => 0x346ED9FC
    case 0x6a => 0xAD678846
    case 0x6b => 0xDA60B8D0
    case 0x6c => 0x44042D73
    case 0x6d => 0x33031DE5
    case 0x6e => 0xAA0A4C5F
    case _ => 0xDD0D7CC9
  }

  function Row7(i: bv32): bv32 {
    match i
    case 0x70 => 0x5005713C
    case 0x71 => 0x270241AA
    case 0x72 => 0xBE0B1010
    case 0x73 => 0xC90C2086
    case 0x74 => 0x5768B525
    case 0x75 => 0x206F85B3
    case 0x76 => 0xB966D409
    case 0x77 => 0xCE61E49F
    case 0x78 => 0x5EDEF90E
    case 0x79 => 0x29D9C998
    case 0x7a => 0xB0D09822
    case 0x7b => 0xC7D7A8B4
    case 0x7c => 0x59B33D17
    case 0x7d => 0x2EB40D81
    case 0x7e => 0xB7BD5C3B
    case _ => 0xC0BA6CAD
  }

  function Row8(i: bv32): bv32 {
    match i
    case 0x80 => 0xEDB88320
    case 0x81 => 0x9ABFB3B6
    case 0x82 => 0x03B6E20C
    case 0x83 => 0x74B1D29A
    case 0x84 => 0xEAD54739
    case 0x85 => 0x9DD277AF
    case 0x86 => 0x04DB2615
    case 0x87 => 0x73DC1683
    case 0x88 => 0xE3630B12
    case 0x89 => 0x94643B84
    case 0x8a => 0x0D6D6A3E
    case 0x8b => 0x7A6A5AA8
    case 0x8c => 0xE40ECF0B
    case 0x8d => 0x9309FF9D
    case 0x8e => 0x0A00AE27
    case _ => 0x7D079EB1
  }

  function Row9(i: bv32): bv32 {
    match i
    case 0x90 => 0xF00F9344
    case 0x91 => 0x8708A3D2
    case 0x92 => 0x1E01F268
    case 0x93 => 0x6906C2FE
    case 0x94 => 0xF762575D
    case 0x95 => 0x806567CB
    case 0x96 => 0x196C3671
    case 0x97 => 0x6E6B06E7
    case 0x98 => 0xFED41B76
    case 0x99 => 0x89D32BE0
    case 0x9a => 0x10DA7A5A
    case 0x9b => 0x67DD4ACC
    case 0x9c => 0xF9B9DF6F
    case 0x9d => 0x8EBEEFF9
    case 0x9e => 0x17B7BE43
    case _ => 0x60B08ED5
  }

  function RowA(i: bv32): bv32 {
    match i
    case 0xa0 => 0xD6D6A3E8
    case 0xa1 => 0xA1D1937E
    case 0xa2 => 0x38D8C2C4
    case 0xa3 => 0x4FDFF252
    case 0xa4 => 0xD1BB67F1
    case 0xa5 => 0xA6BC5767
    case 0xa6 => 0x3FB506DD
    case 0xa7 => 0x48B2364B
    case 0xa8 => 0xD80D2BDA
    case 0xa9 => 0xAF0A1B4C
    case 0xaa => 0x36034AF6
    case 0xab => 0x41047A60
    case 0xac => 0xDF60EFC3
    case 0xad => 0xA867DF55
    case 0xae => 0x316E8EEF
    case _ => 0x4669BE79
  }

  function RowB(i: bv32): bv32 {
    match i
    case 0xb0 => 0xCB61B38C
    case 0xb1 => 0xBC66831A
    case 0xb2 => 0x256FD2A0
    case 0xb3 => 0x5268E236
    case 0xb4 => 0xCC0C7795
    case 0xb5 => 0xBB0B4703
    case 0xb6 => 0x220216B9
    case 0xb7 => 0x5505262F
    case 0xb8 => 0xC5BA3BBE
    case 0xb9 => 0xB2BD0B28
    case 0xba => 0x2BB45A92
    case 0xbb => 0x5CB36A04
    case 0xbc => 0xC2D7FFA7
    case 0xbd => 0xB5D0CF31
    case 0xbe => 0x2CD99E8B
    case _ => 0x5BDEAE1D
  }

  function RowC(i: bv32): bv32 {
    match i
    case 0xc0 => 0x9B64C2B0
    case 0xc1 => 0xEC63F226
    case 0xc2 => 0x756AA39C
    case 0xc3 => 0x026D930A
    case 0xc4 => 0x9C0906A9
    case 0xc5 => 0xEB0E363F
    case 0xc6 => 0x72076785
    case 0xc7 => 0x05005713
    case 0xc8 => 0x95BF4A82
    case 0xc9 => 0xE2B87A14
    case 0xca => 0x7BB12BAE
    case 0xcb => 0x0CB61B38
    case 0xcc => 0x92D28E9B
    case 0xcd => 0xE5D5BE0D
    case 0xce => 0x7CDCEFB7
    case _ => 0x0BDBDF21
  }

  function RowD(i: bv32): bv32 {
    match i
    case 0xd0 => 0x86D3D2D4
    case 0xd1 => 0xF1D4E242
    case 0xd2 => 0x68DDB3F8
    case 0xd3 => 0x1FDA836E
    case 0xd4 => 0x81BE16CD
    case 0xd5 => 0xF6B9265B
    case 0xd6 => 0x6FB077E1
    case 0xd7 => 0x18B74777
    case 0xd8 => 0x88085AE6
    case 0xd9 => 0xFF0F6A70
    case 0xda => 0x66063BCA
    case 0xdb => 0x11010B5C
    case 0xdc => 0x8F659EFF
    case 0xdd => 0xF862AE69
    case 0xde => 0x616BFFD3
    case _ => 0x166CCF45
  }

  function RowE(i: bv32): bv32 {
    match i
    case 0xe0 => 0xA00AE278
    case 0xe1 => 0xD70DD2EE
    case 0xe2 => 0x4E048354
    case 0xe3 => 0x3903B3C2
    case 0xe4 => 0xA7672661
    case 0xe5 => 0xD06016F7
    case 0xe6 => 0x4969474D
    case 0xe7 => 0x3E6E77DB
    case 0xe8 => 0xAED16A4A
    case 0xe9 => 0xD9D65ADC
    case 0xea => 0x40DF0B66
    case 0xeb => 0x37D83BF0
    case 0xec => 0xA9BCAE53
    case 0xed => 0xDEBB9EC5
    case 0xee => 0x47B2CF7F
    case _ => 0x30B5FFE9
  }

  function RowF(i: bv32): bv32 {
    match i
    case 0xf0 => 0xBDBDF21C
    case 0xf1 => 0xCABAC28A
    case 0xf2 => 0x53B39330
    case 0xf3 => 0x24B4A3A6
    case 0xf4 => 0xBAD03605
    case 0xf5 => 0xCDD70693
    case 0xf6 => 0x54DE5729
    case 0xf7 => 0x23D967BF
    case 0xf8 => 0xB3667A2E
    case 0xf9 => 0xC4614AB8
    case 0xfa => 0x5D681B02
    case 0xfb => 0x2A6F2B94
    case 0xfc => 0xB40BBE37
    case 0xfd => 0xC30C8EA1
    case 0xfe => 0x5A05DF1B
    case _ => 0x2D02EF8D
  }

  /** crc32_tab */
  function Table(i: bv32): bv32 {
    match i >> 4
    case 0 => Row0(i)
    case 1 => Row1(i)
    case 2 => Row2(i)
    case 3 => Row3(i)
    case 4 => Row4(i)
    case 5 => Row5(i)
    case 6 => Row6(i)
    case 7 => Row7(i)
    case 8 => Row8(i)
    case 9 => Row9(i)
    case 10 => RowA(i)
    case 11 => RowB(i)
    case 12 => RowC(i)
    case 13 => RowD(i)
    case 14 => RowE(i)
    case _ => RowF(i)
  }

  lemma Row0IsSteps(i: bv32)
    requires 0x00 <= i <= 0x0F
    ensures Row0(i) == Step8(i)
  {
  }

  lemma Row1IsSteps(i: bv32)
    requires 0x10 <= i <= 0x1F
    ensures Row1(i) == Step8(i)
  {
  }

  lemma Row2IsSteps(i: bv32)
    requires 0x20 <= i <= 0x2F
    ensures Row2(i) == Step8(i)
  {
  }

  lemma Row3IsSteps(i: bv32)
    requires 0x30 <= i <= 0x3F
    ensures Row3(i) == Step8(i)
  {
  }

  lemma Row4IsSteps(i: bv32)
    requires 0x40 <= i <= 0x4F
    ensures Row4(i) == Step8(i)
  {
  }

  lemma Row5IsSteps(i: bv32)
    requires 0x50 <= i <= 0x5F
    ensures Row5(i) == Step8(i)
  {
  }

  lemma Row6IsSteps(i: bv32)
    requires 0x60 <= i <= 0x6F
    ensures Row6(i) == Step8(i)
  {
  }

  lemma Row7IsSteps(i: bv32)
    requires 0x70 <= i <= 0x7F
    ensures Row7(i) == Step8(i)
  {
  }

  lemma Row8IsSteps(i: bv32)
    requires 0x80 <= i <= 0x8F
    ensures Row8(i) == Step8(i)
  {
  }

  lemma Row9IsSteps(i: bv32)
    requires 0x90 <= i <= 0x9F
    ensures Row9(i) == Step8(i)
  {
  }

  lemma RowAIsSteps(i: bv32)
    requires 0xA0 <= i <= 0xAF
    ensures RowA(i) == Step8(i)
  {
  }

  lemma RowBIsSteps(i: bv32)
    requires 0xB0 <= i <= 0xBF
    ensures RowB(i) == Step8(i)
  {
  }

  lemma RowCIsSteps(i: bv32)
    requires 0xC0 <= i <= 0xCF
    ensures RowC(i) == Step8(i)
  {
  }

  lemma RowDIsSteps(i: bv32)
    requires 0xD0 <= i <= 0xDF
    ensures RowD(i) == Step8(i)
  {
  }

  lemma RowEIsSteps(i: bv32)
    requires 0xE0 <= i <= 0xEF
    ensures RowE(i) == Step8(i)
  {
  }

  lemma RowFIsSteps(i: bv32)
    requires 0xF0 <= i <= 0xFF
    ensures RowF(i) == Step8(i)
  {
  }

  /** Every entry is eight steps from its own index. */
  lemma TableIsSteps(i: bv32)
    requires i <= 0xFF
    ensures Table(i) == Step8(i)
  {
    match i >> 4
    case 0 => Row0IsSteps(i);
    case 1 => Row1IsSteps(i);
    case 2 => Row2IsSteps(i);
    case 3 => Row3IsSteps(i);
    case 4 => Row4IsSteps(i);
    case 5 => Row5IsSteps(i);
    case 6 => Row6IsSteps(i);
    case 7 => Row7IsSteps(i);
    case 8 => Row8IsSteps(i);
    case 9 => Row9IsSteps(i);
    case 10 => RowAIsSteps(i);
    case 11 => RowBIsSteps(i);
    case 12 => RowCIsSteps(i);
    case 13 => RowDIsSteps(i);
    case 14 => RowEIsSteps(i);
    case _ => RowFIsSteps(i);
  }
}
