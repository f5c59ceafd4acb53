/** The lookup table of the CRC, and what its entries are. */
module CrcTable {

  // The reflected polynomial 0x04C11DB7.
  const POLY: bv32 := 0xEDB88320

  // One bit of the division.
  function Shift1(c: bv32): bv32 {
    if c & 1 == 1 then (c >> 1) ^ POLY else c >> 1
  }

  function Shift8(c: bv32): bv32 {
    Shift1(Shift1(Shift1(Shift1(Shift1(Shift1(Shift1(Shift1(c))))))))
  }

  // The table as the source prints it, sixteen entries a row.
  function Row0(l: bv8): bv32 {
    if l == 0x0 then 0x00000000 else if l == 0x1 then 0x77073096 else if l == 0x2 then 0xEE0E612C else
    if l == 0x3 then 0x990951BA else if l == 0x4 then 0x076DC419 else if l == 0x5 then 0x706AF48F else
    if l == 0x6 then 0xE963A535 else if l == 0x7 then 0x9E6495A3 else if l == 0x8 then 0x0EDB8832 else
    if l == 0x9 then 0x79DCB8A4 else if l == 0xA then 0xE0D5E91E else if l == 0xB then 0x97D2D988 else
    if l == 0xC then 0x09B64C2B else if l == 0xD then 0x7EB17CBD else if l == 0xE then 0xE7B82D07 else
    0x90BF1D91
  }

  function Row1(l: bv8): bv32 {
    if l == 0x0 then 0x1DB71064 else if l == 0x1 then 0x6AB020F2 else if l == 0x2 then 0xF3B97148 else
    if l == 0x3 then 0x84BE41DE else if l == 0x4 then 0x1ADAD47D else if l == 0x5 then 0x6DDDE4EB else
    if l == 0x6 then 0xF4D4B551 else if l == 0x7 then 0x83D385C7 else if l == 0x8 then 0x136C9856 else
    if l == 0x9 then 0x646BA8C0 else if l == 0xA then 0xFD62F97A else if l == 0xB then 0x8A65C9EC else
    if l == 0xC then 0x14015C4F else if l == 0xD then 0x63066CD9 else if l == 0xE then 0xFA0F3D63 else
    0x8D080DF5
  }

  function Row2(l: bv8): bv32 {
    if l == 0x0 then 0x3B6E20C8 else if l == 0x1 then 0x4C69105E else if l == 0x2 then 0xD56041E4 else
    if l == 0x3 then 0xA2677172 else if l == 0x4 then 0x3C03E4D1 else if l == 0x5 then 0x4B04D447 else
    if l == 0x6 then 0xD20D85FD else if l == 0x7 then 0xA50AB56B else if l == 0x8 then 0x35B5A8FA else
    if l == 0x9 then 0x42B2986C else if l == 0xA then 0xDBBBC9D6 else if l == 0xB then 0xACBCF940 else
    if l == 0xC then 0x32D86CE3 else if l == 0xD then 0x45DF5C75 else if l == 0xE then 0xDCD60DCF else
    0xABD13D59
  }

  function Row3(l: bv8): bv32 {
    if l == 0x0 then 0x26D930AC else if l == 0x1 then 0x51DE003A else if l == 0x2 then 0xC8D75180 else
    if l == 0x3 then 0xBFD06116 else if l == 0x4 then 0x21B4F4B5 else if l == 0x5 then 0x56B3C423 else
    if l == 0x6 then 0xCFBA9599 else if l == 0x7 then 0xB8BDA50F else if l == 0x8 then 0x2802B89E else
    if l == 0x9 then 0x5F058808 else if l == 0xA then 0xC60CD9B2 else if l == 0xB then 0xB10BE924 else
    if l == 0xC then 0x2F6F7C87 else if l == 0xD then 0x58684C11 else if l == 0xE then 0xC1611DAB else
    0xB6662D3D
  }

  function Row4(l: bv8): bv32 {
    if l == 0x0 then 0x76DC4190 else if l == 0x1 then 0x01DB7106 else if l == 0x2 then 0x98D220BC else
    if l == 0x3 then 0xEFD5102A else if l == 0x4 then 0x71B18589 else if l == 0x5 then 0x06B6B51F else
    if l == 0x6 then 0x9FBFE4A5 else if l == 0x7 then 0xE8B8D433 else if l == 0x8 then 0x7807C9A2 else
    if l == 0x9 then 0x0F00F934 else if l == 0xA then 0x9609A88E else if l == 0xB then 0xE10E9818 else
    if l == 0xC then 0x7F6A0DBB else if l == 0xD then 0x086D3D2D else if l == 0xE then 0x91646C97 else
    0xE6635C01
  }

  function Row5(l: bv8): bv32 {
    if l == 0x0 then 0x6B6B51F4 else if l == 0x1 then 0x1C6C6162 else if l == 0x2 then 0x856530D8 else
    if l == 0x3 then 0xF262004E else if l == 0x4 then 0x6C0695ED else if l == 0x5 then 0x1B01A57B else
    if l == 0x6 then 0x8208F4C1 else if l == 0x7 then 0xF50FC457 else if l == 0x8 then 0x65B0D9C6 else
    if l == 0x9 then 0x12B7E950 else if l == 0xA then 0x8BBEB8EA else if l == 0xB then 0xFCB9887C else
    if l == 0xC then 0x62DD1DDF else if l == 0xD then 0x15DA2D49 else if l == 0xE then 0x8CD37CF3 else
    0xFBD44C65
  }

  function Row6(l: bv8): bv32 {
    if l == 0x0 then 0x4DB26158 else if l == 0x1 then 0x3AB551CE else if l == 0x2 then 0xA3BC0074 else
    if l == 0x3 then 0xD4BB30E2 else if l == 0x4 then 0x4ADFA541 else if l == 0x5 then 0x3DD895D7 else
    if l == 0x6 then 0xA4D1C46D else if l == 0x7 then 0xD3D6F4FB else if l == 0x8 then 0x4369E96A else
    if l == 0x9 then 0x346ED9FC else if l == 0xA then 0xAD678846 else if l == 0xB then 0xDA60B8D0 else
    if l == 0xC then 0x44042D73 else if l == 0xD then 0x33031DE5 else if l == 0xE then 0xAA0A4C5F else
    0xDD0D7CC9
  }

  function Row7(l: bv8): bv32 {
    if l == 0x0 then 0x5005713C else if l == 0x1 then 0x270241AA else if l == 0x2 then 0xBE0B1010 else
    if l == 0x3 then 0xC90C2086 else if l == 0x4 then 0x5768B525 else if l == 0x5 then 0x206F85B3 else
    if l == 0x6 then 0xB966D409 else if l == 0x7 then 0xCE61E49F else if l == 0x8 then 0x5EDEF90E else
    if l == 0x9 then 0x29D9C998 else if l == 0xA then 0xB0D09822 else if l == 0xB then 0xC7D7A8B4 else
    if l == 0xC then 0x59B33D17 else if l == 0xD then 0x2EB40D81 else if l == 0xE then 0xB7BD5C3B else
    0xC0BA6CAD
  }

  function Row8(l: bv8): bv32 {
    if l == 0x0 then 0xEDB88320 else if l == 0x1 then 0x9ABFB3B6 else if l == 0x2 then 0x03B6E20C else
    if l == 0x3 then 0x74B1D29A else if l == 0x4 then 0xEAD54739 else if l == 0x5 then 0x9DD277AF else
    if l == 0x6 then 0x04DB2615 else if l == 0x7 then 0x73DC1683 else if l == 0x8 then 0xE3630B12 else
    if l == 0x9 then 0x94643B84 else if l == 0xA then 0x0D6D6A3E else if l == 0xB then 0x7A6A5AA8 else
    if l == 0xC then 0xE40ECF0B else if l == 0xD then 0x9309FF9D else if l == 0xE then 0x0A00AE27 else
    0x7D079EB1
  }

  function Row9(l: bv8): bv32 {
    if l == 0x0 then 0xF00F9344 else if l == 0x1 then 0x8708A3D2 else if l == 0x2 then 0x1E01F268 else
    if l == 0x3 then 0x6906C2FE else if l == 0x4 then 0xF762575D else if l == 0x5 then 0x806567CB else
    if l == 0x6 then 0x196C3671 else if l == 0x7 then 0x6E6B06E7 else if l == 0x8 then 0xFED41B76 else
    if l == 0x9 then 0x89D32BE0 else if l == 0xA then 0x10DA7A5A else if l == 0xB then 0x67DD4ACC else
    if l == 0xC then 0xF9B9DF6F else if l == 0xD then 0x8EBEEFF9 else if l == 0xE then 0x17B7BE43 else
    0x60B08ED5
  }

  function RowA(l: bv8): bv32 {
    if l == 0x0 then 0xD6D6A3E8 else if l == 0x1 then 0xA1D1937E else if l == 0x2 then 0x38D8C2C4 else
    if l == 0x3 then 0x4FDFF252 else if l == 0x4 then 0xD1BB67F1 else if l == 0x5 then 0xA6BC5767 else
    if l == 0x6 then 0x3FB506DD else if l == 0x7 then 0x48B2364B else if l == 0x8 then 0xD80D2BDA else
    if l == 0x9 then 0xAF0A1B4C else if l == 0xA then 0x36034AF6 else if l == 0xB then 0x41047A60 else
    if l == 0xC then 0xDF60EFC3 else if l == 0xD then 0xA867DF55 else if l == 0xE then 0x316E8EEF else
    0x4669BE79
  }

  function RowB(l: bv8): bv32 {
    if l == 0x0 then 0xCB61B38C else if l == 0x1 then 0xBC66831A else if l == 0x2 then 0x256FD2A0 else
    if l == 0x3 then 0x5268E236 else if l == 0x4 then 0xCC0C7795 else if l == 0x5 then 0xBB0B4703 else
    if l == 0x6 then 0x220216B9 else if l == 0x7 then 0x5505262F else if l == 0x8 then 0xC5BA3BBE else
    if l == 0x9 then 0xB2BD0B28 else if l == 0xA then 0x2BB45A92 else if l == 0xB then 0x5CB36A04 else
    if l == 0xC then 0xC2D7FFA7 else if l == 0xD then 0xB5D0CF31 else if l == 0xE then 0x2CD99E8B else
    0x5BDEAE1D
  }

  function RowC(l: bv8): bv32 {
    if l == 0x0 then 0x9B64C2B0 else if l == 0x1 then 0xEC63F226 else if l == 0x2 then 0x756AA39C else
    if l == 0x3 then 0x026D930A else if l == 0x4 then 0x9C0906A9 else if l == 0x5 then 0xEB0E363F else
    if l == 0x6 then 0x72076785 else if l == 0x7 then 0x05005713 else if l == 0x8 then 0x95BF4A82 else
    if l == 0x9 then 0xE2B87A14 else if l == 0xA then 0x7BB12BAE else if l == 0xB then 0x0CB61B38 else
    if l == 0xC then 0x92D28E9B else if l == 0xD then 0xE5D5BE0D else if l == 0xE then 0x7CDCEFB7 else
    0x0BDBDF21
  }

  function RowD(l: bv8): bv32 {
    if l == 0x0 then 0x86D3D2D4 else if l == 0x1 then 0xF1D4E242 else if l == 0x2 then 0x68DDB3F8 else
    if l == 0x3 then 0x1FDA836E else if l == 0x4 then 0x81BE16CD else if l == 0x5 then 0xF6B9265B else
    if l == 0x6 then 0x6FB077E1 else if l == 0x7 then 0x18B74777 else if l == 0x8 then 0x88085AE6 else
    if l == 0x9 then 0xFF0F6A70 else if l == 0xA then 0x66063BCA else if l == 0xB then 0x11010B5C else
    if l == 0xC then 0x8F659EFF else if l == 0xD then 0xF862AE69 else if l == 0xE then 0x616BFFD3 else
    0x166CCF45
  }

  function RowE(l: bv8): bv32 {
    if l == 0x0 then 0xA00AE278 else if l == 0x1 then 0xD70DD2EE else if l == 0x2 then 0x4E048354 else
    if l == 0x3 then 0x3903B3C2 else if l == 0x4 then 0xA7672661 else if l == 0x5 then 0xD06016F7 else
    if l == 0x6 then 0x4969474D else if l == 0x7 then 0x3E6E77DB else if l == 0x8 then 0xAED16A4A else
    if l == 0x9 then 0xD9D65ADC else if l == 0xA then 0x40DF0B66 else if l == 0xB then 0x37D83BF0 else
    if l == 0xC then 0xA9BCAE53 else if l == 0xD then 0xDEBB9EC5 else if l == 0xE then 0x47B2CF7F else
    0x30B5FFE9
  }

  function RowF(l: bv8): bv32 {
    if l == 0x0 then 0xBDBDF21C else if l == 0x1 then 0xCABAC28A else if l == 0x2 then 0x53B39330 else
    if l == 0x3 then 0x24B4A3A6 else if l == 0x4 then 0xBAD03605 else if l == 0x5 then 0xCDD70693 else
    if l == 0x6 then 0x54DE5729 else if l == 0x7 then 0x23D967BF else if l == 0x8 then 0xB3667A2E else
    if l == 0x9 then 0xC4614AB8 else if l == 0xA then 0x5D681B02 else if l == 0xB then 0x2A6F2B94 else
    if l == 0xC then 0xB40BBE37 else if l == 0xD then 0xC30C8EA1 else if l == 0xE then 0x5A05DF1B else
    0x2D02EF8D
  }

  function Table(i: bv8): bv32 {
    var h, l := i >> 4, i & 0xF;
    if h == 0x0 then Row0(l)
    else if h == 0x1 then Row1(l)
    else if h == 0x2 then Row2(l)
    else if h == 0x3 then Row3(l)
    else if h == 0x4 then Row4(l)
    else if h == 0x5 then Row5(l)
    else if h == 0x6 then Row6(l)
    else if h == 0x7 then Row7(l)
    else if h == 0x8 then Row8(l)
    else if h == 0x9 then Row9(l)
    else if h == 0xA then RowA(l)
    else if h == 0xB then RowB(l)
    else if h == 0xC then RowC(l)
    else if h == 0xD then RowD(l)
    else if h == 0xE then RowE(l)
    else RowF(l)
  }

  lemma Row0Is(i: bv8)
    requires i >> 4 == 0x0
    ensures Row0(i & 0xF) == Shift8(i as bv32)
  {
  }

  lemma Row1Is(i: bv8)
    requires i >> 4 == 0x1
    ensures Row1(i & 0xF) == Shift8(i as bv32)
  {
  }

  lemma Row2Is(i: bv8)
    requires i >> 4 == 0x2
    ensures Row2(i & 0xF) == Shift8(i as bv32)
  {
  }

  lemma Row3Is(i: bv8)
    requires i >> 4 == 0x3
    ensures Row3(i & 0xF) == Shift8(i as bv32)
  {
  }

  lemma Row4Is(i: bv8)
    requires i >> 4 == 0x4
    ensures Row4(i & 0xF) == Shift8(i as bv32)
  {
  }

  lemma Row5Is(i: bv8)
    requires i >> 4 == 0x5
    ensures Row5(i & 0xF) == Shift8(i as bv32)
  {
  }

  lemma Row6Is(i: bv8)
    requires i >> 4 == 0x6
    ensures Row6(i & 0xF) == Shift8(i as bv32)
  {
  }

  lemma Row7Is(i: bv8)
    requires i >> 4 == 0x7
    ensures Row7(i & 0xF) == Shift8(i as bv32)
  {
  }

  lemma Row8Is(i: bv8)
    requires i >> 4 == 0x8
    ensures Row8(i & 0xF) == Shift8(i as bv32)
  {
  }

  lemma Row9Is(i: bv8)
    requires i >> 4 == 0x9
    ensures Row9(i & 0xF) == Shift8(i as bv32)
  {
  }

  lemma RowAIs(i: bv8)
    requires i >> 4 == 0xA
    ensures RowA(i & 0xF) == Shift8(i as bv32)
  {
  }

  lemma RowBIs(i: bv8)
    requires i >> 4 == 0xB
    ensures RowB(i & 0xF) == Shift8(i as bv32)
  {
  }

  lemma RowCIs(i: bv8)
    requires i >> 4 == 0xC
    ensures RowC(i & 0xF) == Shift8(i as bv32)
  {
  }

  lemma RowDIs(i: bv8)
    requires i >> 4 == 0xD
    ensures RowD(i & 0xF) == Shift8(i as bv32)
  {
  }

  lemma RowEIs(i: bv8)
    requires i >> 4 == 0xE
    ensures RowE(i & 0xF) == Shift8(i as bv32)
  {
  }

  lemma RowFIs(i: bv8)
    requires i >> 4 == 0xF
    ensures RowF(i & 0xF) == Shift8(i as bv32)
  {
  }

  /** Every entry is eight bits of division of its index. */
  lemma TableIs(i: bv8)
    ensures Table(i) == Shift8(i as bv32)
  {
    hide Shift8, Row0, Row1, Row2, Row3, Row4, Row5, Row6, Row7, Row8, Row9, RowA, RowB, RowC, RowD, RowE, RowF;
    if i >> 4 == 0x0 {
      Row0Is(i);
    } else if i >> 4 == 0x1 {
      Row1Is(i);
    } else if i >> 4 == 0x2 {
      Row2Is(i);
    } else if i >> 4 == 0x3 {
      Row3Is(i);
    } else if i >> 4 == 0x4 {
      Row4Is(i);
    } else if i >> 4 == 0x5 {
      Row5Is(i);
    } else if i >> 4 == 0x6 {
      Row6Is(i);
    } else if i >> 4 == 0x7 {
      Row7Is(i);
    } else if i >> 4 == 0x8 {
      Row8Is(i);
    } else if i >> 4 == 0x9 {
      Row9Is(i);
    } else if i >> 4 == 0xA {
      RowAIs(i);
    } else if i >> 4 == 0xB {
      RowBIs(i);
    } else if i >> 4 == 0xC {
      RowCIs(i);
    } else if i >> 4 == 0xD {
      RowDIs(i);
    } else if i >> 4 == 0xE {
      RowEIs(i);
    } else {
      Top(i);
      RowFIs(i);
    }
  }

  lemma Top(i: bv8)
    requires i >> 4 != 0x0
    requires i >> 4 != 0x1
    requires i >> 4 != 0x2
    requires i >> 4 != 0x3
    requires i >> 4 != 0x4
    requires i >> 4 != 0x5
    requires i >> 4 != 0x6
    requires i >> 4 != 0x7
    requires i >> 4 != 0x8
    requires i >> 4 != 0x9
    requires i >> 4 != 0xA
    requires i >> 4 != 0xB
    requires i >> 4 != 0xC
    requires i >> 4 != 0xD
    requires i >> 4 != 0xE
    ensures i >> 4 == 0xF
  {
  }
}
