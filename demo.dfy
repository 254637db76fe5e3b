/** The values the arbitrarymath demo builds, and the carry example of the
    addition, stated through the contracts of the model. */
module Demo {
  import opened Bytes
  import opened BigValues

  /** 1234, -1234 and +-1100110011001100110 as int64 values, and 1234 and
      1100110011001100110 as uint64 values, in the demo's order: the
      magnitude each holds, read back from its bytes as the demo's
      `(uint64_t)` casts are meant to, and the sign each carries. */
  method DemoValues() returns (magnitudes: seq<nat>, negatives: seq<bool>)
    ensures magnitudes == [1234, 1234, 1100110011001100110, 1100110011001100110, 1234, 1100110011001100110]
    ensures negatives == [false, true, true, false, false, false]
  {
    var ip := new BigValue.FromInt64(1234);
    var im := new BigValue.FromInt64(-1234);
    var inb := new BigValue.FromInt64(-1100110011001100110);
    var ipb := new BigValue.FromInt64(1100110011001100110);
    var ui := new BigValue.FromUInt64(1234);
    var uib := new BigValue.FromUInt64(1100110011001100110);

    magnitudes := [Value(ip.Bytes()), Value(im.Bytes()), Value(inb.Bytes()),
                   Value(ipb.Bytes()), Value(ui.Bytes()), Value(uib.Bytes())];
    negatives := [ip.negative, im.negative, inb.negative, ipb.negative, ui.negative, uib.negative];
  }

  /** 0xFF + 0x01: the carry out of byte 0 lands in the extra top byte. */
  lemma CarryExample()
    ensures AddSum([0xFF], [0x01], 1) == [0x00, 0x01]
  {
    var sum: seq<bv8> := [0x00, 0x01];
    assert Value([0xFF as bv8]) + Value([0x01 as bv8]) == Value(sum) by {
      NumIsValue(0xFF);
      NumIsValue(0x01);
      NumIsValue(0x00);
    }
    AddSumEncoding([0xFF], [0x01], 1);
    LittleEndianOfValue(sum);
  }
}
