// The multiplication and division of src/seal/gf256.rs: products and quotients of field
// elements go through a table of powers of 3 and a table of logarithms. Exponents are u16
// values, whose bounds the verifier checks at every operation.
module GF256Tables {
  import opened Bytes
  import opened Results

  newtype u16 = x: int | 0 <= x < 0x1_0000

  // Powers of the generator 3. The array has 255 entries, so the index 255 is out of range.
  function EXP(i: bv8): bv8
    requires i < 255
  {
    var column := i & 0x0f;
    match i >> 4
    case 0 => (
      match column
      case 0 => 0x01 case 1 => 0x03 case 2 => 0x05 case 3 => 0x0f case 4 => 0x11 case 5 => 0x33
      case 6 => 0x55 case 7 => 0xff case 8 => 0x1a case 9 => 0x2e case 10 => 0x72
      case 11 => 0x96 case 12 => 0xa1 case 13 => 0xf8 case 14 => 0x13 case _ => 0x35)
    case 1 => (
      match column
      case 0 => 0x5f case 1 => 0xe1 case 2 => 0x38 case 3 => 0x48 case 4 => 0xd8 case 5 => 0x73
      case 6 => 0x95 case 7 => 0xa4 case 8 => 0xf7 case 9 => 0x02 case 10 => 0x06
      case 11 => 0x0a case 12 => 0x1e case 13 => 0x22 case 14 => 0x66 case _ => 0xaa)
    case 2 => (
      match column
      case 0 => 0xe5 case 1 => 0x34 case 2 => 0x5c case 3 => 0xe4 case 4 => 0x37 case 5 => 0x59
      case 6 => 0xeb case 7 => 0x26 case 8 => 0x6a case 9 => 0xbe case 10 => 0xd9
      case 11 => 0x70 case 12 => 0x90 case 13 => 0xab case 14 => 0xe6 case _ => 0x31)
    case 3 => (
      match column
      case 0 => 0x53 case 1 => 0xf5 case 2 => 0x04 case 3 => 0x0c case 4 => 0x14 case 5 => 0x3c
      case 6 => 0x44 case 7 => 0xcc case 8 => 0x4f case 9 => 0xd1 case 10 => 0x68
      case 11 => 0xb8 case 12 => 0xd3 case 13 => 0x6e case 14 => 0xb2 case _ => 0xcd)
    case 4 => (
      match column
      case 0 => 0x4c case 1 => 0xd4 case 2 => 0x67 case 3 => 0xa9 case 4 => 0xe0 case 5 => 0x3b
      case 6 => 0x4d case 7 => 0xd7 case 8 => 0x62 case 9 => 0xa6 case 10 => 0xf1
      case 11 => 0x08 case 12 => 0x18 case 13 => 0x28 case 14 => 0x78 case _ => 0x88)
    case 5 => (
      match column
      case 0 => 0x83 case 1 => 0x9e case 2 => 0xb9 case 3 => 0xd0 case 4 => 0x6b case 5 => 0xbd
      case 6 => 0xdc case 7 => 0x7f case 8 => 0x81 case 9 => 0x98 case 10 => 0xb3
      case 11 => 0xce case 12 => 0x49 case 13 => 0xdb case 14 => 0x76 case _ => 0x9a)
    case 6 => (
      match column
      case 0 => 0xb5 case 1 => 0xc4 case 2 => 0x57 case 3 => 0xf9 case 4 => 0x10 case 5 => 0x30
      case 6 => 0x50 case 7 => 0xf0 case 8 => 0x0b case 9 => 0x1d case 10 => 0x27
      case 11 => 0x69 case 12 => 0xbb case 13 => 0xd6 case 14 => 0x61 case _ => 0xa3)
    case 7 => (
      match column
      case 0 => 0xfe case 1 => 0x19 case 2 => 0x2b case 3 => 0x7d case 4 => 0x87 case 5 => 0x92
      case 6 => 0xad case 7 => 0xec case 8 => 0x2f case 9 => 0x71 case 10 => 0x93
      case 11 => 0xae case 12 => 0xe9 case 13 => 0x20 case 14 => 0x60 case _ => 0xa0)
    case 8 => (
      match column
      case 0 => 0xfb case 1 => 0x16 case 2 => 0x3a case 3 => 0x4e case 4 => 0xd2 case 5 => 0x6d
      case 6 => 0xb7 case 7 => 0xc2 case 8 => 0x5d case 9 => 0xe7 case 10 => 0x32
      case 11 => 0x56 case 12 => 0xfa case 13 => 0x15 case 14 => 0x3f case _ => 0x41)
    case 9 => (
      match column
      case 0 => 0xc3 case 1 => 0x5e case 2 => 0xe2 case 3 => 0x3d case 4 => 0x47 case 5 => 0xc9
      case 6 => 0x40 case 7 => 0xc0 case 8 => 0x5b case 9 => 0xed case 10 => 0x2c
      case 11 => 0x74 case 12 => 0x9c case 13 => 0xbf case 14 => 0xda case _ => 0x75)
    case 10 => (
      match column
      case 0 => 0x9f case 1 => 0xba case 2 => 0xd5 case 3 => 0x64 case 4 => 0xac case 5 => 0xef
      case 6 => 0x2a case 7 => 0x7e case 8 => 0x82 case 9 => 0x9d case 10 => 0xbc
      case 11 => 0xdf case 12 => 0x7a case 13 => 0x8e case 14 => 0x89 case _ => 0x80)
    case 11 => (
      match column
      case 0 => 0x9b case 1 => 0xb6 case 2 => 0xc1 case 3 => 0x58 case 4 => 0xe8 case 5 => 0x23
      case 6 => 0x65 case 7 => 0xaf case 8 => 0xea case 9 => 0x25 case 10 => 0x6f
      case 11 => 0xb1 case 12 => 0xc8 case 13 => 0x43 case 14 => 0xc5 case _ => 0x54)
    case 12 => (
      match column
      case 0 => 0xfc case 1 => 0x1f case 2 => 0x21 case 3 => 0x63 case 4 => 0xa5 case 5 => 0xf4
      case 6 => 0x07 case 7 => 0x09 case 8 => 0x1b case 9 => 0x2d case 10 => 0x77
      case 11 => 0x99 case 12 => 0xb0 case 13 => 0xcb case 14 => 0x46 case _ => 0xca)
    case 13 => (
      match column
      case 0 => 0x45 case 1 => 0xcf case 2 => 0x4a case 3 => 0xde case 4 => 0x79 case 5 => 0x8b
      case 6 => 0x86 case 7 => 0x91 case 8 => 0xa8 case 9 => 0xe3 case 10 => 0x3e
      case 11 => 0x42 case 12 => 0xc6 case 13 => 0x51 case 14 => 0xf3 case _ => 0x0e)
    case 14 => (
      match column
      case 0 => 0x12 case 1 => 0x36 case 2 => 0x5a case 3 => 0xee case 4 => 0x29 case 5 => 0x7b
      case 6 => 0x8d case 7 => 0x8c case 8 => 0x8f case 9 => 0x8a case 10 => 0x85
      case 11 => 0x94 case 12 => 0xa7 case 13 => 0xf2 case 14 => 0x0d case _ => 0x17)
    case _ => (
      match column
      case 0 => 0x39 case 1 => 0x4b case 2 => 0xdd case 3 => 0x7c case 4 => 0x84 case 5 => 0x97
      case 6 => 0xa2 case 7 => 0xfd case 8 => 0x1c case 9 => 0x24 case 10 => 0x6c
      case 11 => 0xb4 case 12 => 0xc7 case 13 => 0x52 case _ => 0xf6)
  }

  // Discrete logarithms to base 3: entry x - 1 is the logarithm of x.
  function LOG(i: bv8): bv8
    requires i < 255
  {
    var column := i & 0x0f;
    match i >> 4
    case 0 => (
      match column
      case 0 => 0x00 case 1 => 0x19 case 2 => 0x01 case 3 => 0x32 case 4 => 0x02 case 5 => 0x1a
      case 6 => 0xc6 case 7 => 0x4b case 8 => 0xc7 case 9 => 0x1b case 10 => 0x68
      case 11 => 0x33 case 12 => 0xee case 13 => 0xdf case 14 => 0x03 case _ => 0x64)
    case 1 => (
      match column
      case 0 => 0x04 case 1 => 0xe0 case 2 => 0x0e case 3 => 0x34 case 4 => 0x8d case 5 => 0x81
      case 6 => 0xef case 7 => 0x4c case 8 => 0x71 case 9 => 0x08 case 10 => 0xc8
      case 11 => 0xf8 case 12 => 0x69 case 13 => 0x1c case 14 => 0xc1 case _ => 0x7d)
    case 2 => (
      match column
      case 0 => 0xc2 case 1 => 0x1d case 2 => 0xb5 case 3 => 0xf9 case 4 => 0xb9 case 5 => 0x27
      case 6 => 0x6a case 7 => 0x4d case 8 => 0xe4 case 9 => 0xa6 case 10 => 0x72
      case 11 => 0x9a case 12 => 0xc9 case 13 => 0x09 case 14 => 0x78 case _ => 0x65)
    case 3 => (
      match column
      case 0 => 0x2f case 1 => 0x8a case 2 => 0x05 case 3 => 0x21 case 4 => 0x0f case 5 => 0xe1
      case 6 => 0x24 case 7 => 0x12 case 8 => 0xf0 case 9 => 0x82 case 10 => 0x45
      case 11 => 0x35 case 12 => 0x93 case 13 => 0xda case 14 => 0x8e case _ => 0x96)
    case 4 => (
      match column
      case 0 => 0x8f case 1 => 0xdb case 2 => 0xbd case 3 => 0x36 case 4 => 0xd0 case 5 => 0xce
      case 6 => 0x94 case 7 => 0x13 case 8 => 0x5c case 9 => 0xd2 case 10 => 0xf1
      case 11 => 0x40 case 12 => 0x46 case 13 => 0x83 case 14 => 0x38 case _ => 0x66)
    case 5 => (
      match column
      case 0 => 0xdd case 1 => 0xfd case 2 => 0x30 case 3 => 0xbf case 4 => 0x06 case 5 => 0x8b
      case 6 => 0x62 case 7 => 0xb3 case 8 => 0x25 case 9 => 0xe2 case 10 => 0x98
      case 11 => 0x22 case 12 => 0x88 case 13 => 0x91 case 14 => 0x10 case _ => 0x7e)
    case 6 => (
      match column
      case 0 => 0x6e case 1 => 0x48 case 2 => 0xc3 case 3 => 0xa3 case 4 => 0xb6 case 5 => 0x1e
      case 6 => 0x42 case 7 => 0x3a case 8 => 0x6b case 9 => 0x28 case 10 => 0x54
      case 11 => 0xfa case 12 => 0x85 case 13 => 0x3d case 14 => 0xba case _ => 0x2b)
    case 7 => (
      match column
      case 0 => 0x79 case 1 => 0x0a case 2 => 0x15 case 3 => 0x9b case 4 => 0x9f case 5 => 0x5e
      case 6 => 0xca case 7 => 0x4e case 8 => 0xd4 case 9 => 0xac case 10 => 0xe5
      case 11 => 0xf3 case 12 => 0x73 case 13 => 0xa7 case 14 => 0x57 case _ => 0xaf)
    case 8 => (
      match column
      case 0 => 0x58 case 1 => 0xa8 case 2 => 0x50 case 3 => 0xf4 case 4 => 0xea case 5 => 0xd6
      case 6 => 0x74 case 7 => 0x4f case 8 => 0xae case 9 => 0xe9 case 10 => 0xd5
      case 11 => 0xe7 case 12 => 0xe6 case 13 => 0xad case 14 => 0xe8 case _ => 0x2c)
    case 9 => (
      match column
      case 0 => 0xd7 case 1 => 0x75 case 2 => 0x7a case 3 => 0xeb case 4 => 0x16 case 5 => 0x0b
      case 6 => 0xf5 case 7 => 0x59 case 8 => 0xcb case 9 => 0x5f case 10 => 0xb0
      case 11 => 0x9c case 12 => 0xa9 case 13 => 0x51 case 14 => 0xa0 case _ => 0x7f)
    case 10 => (
      match column
      case 0 => 0x0c case 1 => 0xf6 case 2 => 0x6f case 3 => 0x17 case 4 => 0xc4 case 5 => 0x49
      case 6 => 0xec case 7 => 0xd8 case 8 => 0x43 case 9 => 0x1f case 10 => 0x2d
      case 11 => 0xa4 case 12 => 0x76 case 13 => 0x7b case 14 => 0xb7 case _ => 0xcc)
    case 11 => (
      match column
      case 0 => 0xbb case 1 => 0x3e case 2 => 0x5a case 3 => 0xfb case 4 => 0x60 case 5 => 0xb1
      case 6 => 0x86 case 7 => 0x3b case 8 => 0x52 case 9 => 0xa1 case 10 => 0x6c
      case 11 => 0xaa case 12 => 0x55 case 13 => 0x29 case 14 => 0x9d case _ => 0x97)
    case 12 => (
      match column
      case 0 => 0xb2 case 1 => 0x87 case 2 => 0x90 case 3 => 0x61 case 4 => 0xbe case 5 => 0xdc
      case 6 => 0xfc case 7 => 0xbc case 8 => 0x95 case 9 => 0xcf case 10 => 0xcd
      case 11 => 0x37 case 12 => 0x3f case 13 => 0x5b case 14 => 0xd1 case _ => 0x53)
    case 13 => (
      match column
      case 0 => 0x39 case 1 => 0x84 case 2 => 0x3c case 3 => 0x41 case 4 => 0xa2 case 5 => 0x6d
      case 6 => 0x47 case 7 => 0x14 case 8 => 0x2a case 9 => 0x9e case 10 => 0x5d
      case 11 => 0x56 case 12 => 0xf2 case 13 => 0xd3 case 14 => 0xab case _ => 0x44)
    case 14 => (
      match column
      case 0 => 0x11 case 1 => 0x92 case 2 => 0xd9 case 3 => 0x23 case 4 => 0x20 case 5 => 0x2e
      case 6 => 0x89 case 7 => 0xb4 case 8 => 0x7c case 9 => 0xb8 case 10 => 0x26
      case 11 => 0x77 case 12 => 0x99 case 13 => 0xe3 case 14 => 0xa5 case _ => 0x67)
    case _ => (
      match column
      case 0 => 0x4a case 1 => 0xed case 2 => 0xde case 3 => 0xc5 case 4 => 0x31 case 5 => 0xfe
      case 6 => 0x18 case 7 => 0x0d case 8 => 0x63 case 9 => 0x8c case 10 => 0x80
      case 11 => 0xc0 case 12 => 0xf7 case 13 => 0x70 case _ => 0x07)
  }

  // Zero has no logarithm; the program stops if asked for it.
  function Log(x: bv8): (r: u16)
    requires x != 0
    ensures r <= 255
  {
    Value(LOG(x - 1)) as u16
  }

  function Exp(x: u16): bv8
  {
    ByteBound(x as nat % 255);
    EXP(Byte(x as nat % 255))
  }

  function Mul(a: bv8, b: bv8): bv8
  {
    if a == 0 || b == 0 then 0 else Exp(Log(a) + Log(b))
  }

  function Div(a: bv8, b: bv8): Result<bv8>
  {
    if b == 0 then Err(InvalidInput)
    else if a == 0 then Ok(0)
    else Ok(Exp(255 + Log(a) - Log(b)))
  }
}
