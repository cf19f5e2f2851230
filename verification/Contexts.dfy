/** The x86_64 register context (src/unwinder/arch/x86_64.rs) and its register numbering. */
module Contexts {
  import opened Words

  /** The DWARF numbers that a context can be indexed with. */
  type Reg = r: int | 0 <= r <= 16 || r == 64 || r == 65

  const RAX: Reg := 0
  const RDX: Reg := 1
  const SP: Reg := 7
  const RA: Reg := 16
  const MXCSR: Reg := 64
  const FCW: Reg := 65

  datatype RawContext = Context(registers: seq<Word>, ra: Word, mcxsr: Word, fcw: Word)
  type Context = c: RawContext | |c.registers| == 16 witness Context(seq(16, _ => 0), 0, 0, 0)

  function Get(c: Context, r: Reg): Word {
    if r < 16 then c.registers[r]
    else if r == RA then c.ra
    else if r == MXCSR then c.mcxsr
    else c.fcw
  }

  /** Writing one slot changes that slot and no other. */
  function Set(c: Context, r: Reg, v: Word): (c': Context)
    ensures forall q: Reg :: Get(c', q) == if q == r then v else Get(c, q)
  {
    if r < 16 then c.(registers := c.registers[r := v])
    else if r == RA then c.(ra := v)
    else if r == MXCSR then c.(mcxsr := v)
    else c.(fcw := v)
  }

  /** A context holds nothing besides what its registers read as. */
  lemma SameRegisters(c: Context, d: Context)
    requires forall r: Reg :: Get(c, r) == Get(d, r)
    ensures c == d
  {
    forall i | 0 <= i < 16 ensures c.registers[i] == d.registers[i] {
      var r: Reg := i;
      assert Get(c, r) == Get(d, r);
    }
    assert Get(c, RA) == Get(d, RA) && Get(c, MXCSR) == Get(d, MXCSR) && Get(c, FCW) == Get(d, FCW);
  }
}
