/** `StreamBase`: the three error bits of a stream. */
module StreamState {

  datatype IoState = IoState(eof: bool, failed: bool, bad: bool) {

    /** No bit at all is set. */
    predicate IsGood() {
      !eof && !failed && !bad
    }

    /** `setstate`: bits are only ever added. */
    function Plus(bits: IoState): IoState {
      IoState(eof || bits.eof, failed || bits.failed, bad || bits.bad)
    }

    /** `clear(rdstate() & ~eofbit)`. */
    function WithoutEof(): IoState {
      this.(eof := false)
    }
  }

  const GOOD := IoState(false, false, false)
}
