/** The instruction encoder: an opcode table keyed by the mnemonic and the
    kinds of its operands, a ModRM byte per register operand and a 4-byte
    little-endian immediate per literal operand. The two table entries are
    x86-64 encodings from the Intel 64 and IA-32 Architectures Software
    Developer's Manual, Volume 2, Chapter 4: MOV r/m64, imm32 (REX.W C7 /0)
    and SYSCALL (0F 05). */
module InsAsm {
  import opened Base
  import opened LittleEndian

  /** An operand: a register name (a Python str) or a literal integer. */
  datatype Arg = Reg(name: string) | Lit(value: int)

  /** The opcode table, keyed by the mnemonic followed by one kind per
      operand. */
  const Opcodes: map<seq<string>, seq<byte>> :=
    map[["mov", "64", "lit"] := [0x48, 0xC7], ["syscall"] := [0x0F, 0x05]]

  /** The ModRM byte selecting each 64-bit register as r/m operand. */
  const Registers: map<string, byte> :=
    map["rax" := 0xC0, "rcx" := 0xC1, "rdx" := 0xC2, "rbx" := 0xC3,
        "rsp" := 0xC4, "rbp" := 0xC5, "rsi" := 0xC6, "rdi" := 0xC7]

  /** The kind an operand contributes to the lookup key. */
  function Kind(a: Arg): (k: string)
    ensures k == "64" <==> a.Reg?
    ensures k == "lit" <==> a.Lit?
  {
    if a.Reg? then "64" else "lit"
  }

  /** The lookup key: the mnemonic, then each operand's kind in order. */
  function Key(mnemonic: string, args: seq<Arg>): (k: seq<string>)
    ensures |k| == |args| + 1 && k[0] == mnemonic
    ensures forall i :: 0 <= i < |args| ==> k[i + 1] == Kind(args[i])
  {
    [mnemonic] + seq(|args|, i requires 0 <= i < |args| => Kind(args[i]))
  }

  /** One operand's bytes: the register's ModRM byte (KeyError for an
      unknown name) or the literal as 4 little-endian bytes (OverflowError
      outside 0 .. 2^32 - 1). */
  function EncodeArg(a: Arg): (r: Result<seq<byte>>)
    ensures a.Reg? ==> (r.Success? <==> a.name in Registers)
    ensures a.Reg? && r.Success? ==> r.value == [Registers[a.name]]
    ensures a.Reg? && r.Failure? ==> r.error == KeyError
    ensures a.Lit? ==> (r.Success? <==> 0 <= a.value < 0x1_0000_0000)
    ensures a.Lit? && r.Success? ==> |r.value| == 4 && FromBytes(r.value) == a.value
    ensures a.Lit? && r.Failure? ==> r.error == OverflowError
  {
    match a
    case Reg(name) => if name in Registers then Success([Registers[name]]) else Failure(KeyError)
    case Lit(value) => ToBytes(value, 4)
  }

  /** Operand i is the first one that cannot be encoded. */
  predicate FirstFailing(args: seq<Arg>, i: int)
  {
    0 <= i < |args| && EncodeArg(args[i]).Failure? && forall j :: 0 <= j < i ==> EncodeArg(args[j]).Success?
  }

  /** `bytes` holds every operand's encoding, each at the offset given by
      the widths of the operands before it. */
  predicate LaidOut(args: seq<Arg>, bytes: seq<byte>)
  {
    forall i :: 0 <= i < |args| ==> OperandAt(args, bytes, i)
  }

  /** Operand i encodes, and its bytes sit at offset `ArgsLength(args[..i])`. */
  predicate OperandAt(args: seq<Arg>, bytes: seq<byte>, i: int)
    requires 0 <= i < |args|
  {
    && EncodeArg(args[i]).Success?
    && ArgsLength(args[..i]) + |EncodeArg(args[i]).value| <= |bytes|
    && bytes[ArgsLength(args[..i])..ArgsLength(args[..i]) + |EncodeArg(args[i]).value|] == EncodeArg(args[i]).value
  }

  /** All operands encoded in order and joined; the first operand that
      cannot be encoded raises its error. */
  function EncodeArgs(args: seq<Arg>): (r: Result<seq<byte>>)
    ensures r.Success? <==> forall i :: 0 <= i < |args| ==> EncodeArg(args[i]).Success?
    ensures r.Success? ==> |r.value| == ArgsLength(args) && LaidOut(args, r.value)
    ensures forall i :: FirstFailing(args, i) ==> r == Failure(EncodeArg(args[i]).error)
  {
    if args == [] then Success([])
    else
      match EncodeArg(args[0])
      case Failure(e) => Failure(e)
      case Success(head) =>
        match EncodeArgs(args[1..])
        case Failure(e) =>
          FailingInTail(args);
          Failure(e)
        case Success(tail) =>
          OperandsAfterHead(args, head, tail);
          Success(head + tail)
  }

  /** Past a head that encodes, the first failing operand of the list is
      the one before it in the tail. */
  lemma FailingInTail(args: seq<Arg>)
    requires args != [] && EncodeArg(args[0]).Success?
    ensures forall i :: FirstFailing(args, i) ==> FirstFailing(args[1..], i - 1)
  {
  }

  /** After a head that encodes, the operands laid out in the tail are laid
      out in the whole, shifted by the head's width. */
  lemma OperandsAfterHead(args: seq<Arg>, head: seq<byte>, tail: seq<byte>)
    requires args != [] && EncodeArg(args[0]) == Success(head) && LaidOut(args[1..], tail)
    ensures LaidOut(args, head + tail)
  {
    forall i | 0 <= i < |args| ensures OperandAt(args, head + tail, i) {
      if i == 0 {
        assert args[..0] == [];
        assert (head + tail)[..|head|] == head;
      } else {
        OperandAfterHead(args, head, tail, i);
      }
    }
  }

  lemma OperandAfterHead(args: seq<Arg>, head: seq<byte>, tail: seq<byte>, i: int)
    requires 0 < i < |args| && EncodeArg(args[0]) == Success(head) && OperandAt(args[1..], tail, i - 1)
    ensures OperandAt(args, head + tail, i)
  {
    assert args[1..][i - 1] == args[i];
    assert args[..i][1..] == args[1..][..i - 1];
    var lo := ArgsLength(args[1..][..i - 1]);
    assert ArgsLength(args[..i]) == |head| + lo;
    var v := EncodeArg(args[i]).value;
    assert tail[lo..lo + |v|] == v;
    SliceAfter(head, tail, lo, lo + |v|);
  }

  /** A slice of the second half of a concatenation, indexed from the start
      of the whole. */
  lemma SliceAfter(a: seq<byte>, b: seq<byte>, lo: nat, hi: nat)
    requires lo <= hi <= |b|
    ensures (a + b)[|a| + lo..|a| + hi] == b[lo..hi]
  {
  }

  /** The number of operand bytes: 1 per register, 4 per literal. */
  function ArgsLength(args: seq<Arg>): nat
  {
    if args == [] then 0 else (if args[0].Reg? then 1 else 4) + ArgsLength(args[1..])
  }

  /** `asm_command(mnemonic, *args)`: the opcode bytes for the key, then the
      operands' bytes. KeyError when the key is not in the table. */
  function AsmCommand(mnemonic: string, args: seq<Arg>): (r: Result<seq<byte>>)
    ensures Key(mnemonic, args) !in Opcodes ==> r == Failure(KeyError)
    ensures r.Success? <==>
      Key(mnemonic, args) in Opcodes && forall i :: 0 <= i < |args| ==> EncodeArg(args[i]).Success?
    ensures r.Success? ==>
      var op := Opcodes[Key(mnemonic, args)];
      |r.value| == |op| + ArgsLength(args) && r.value[..|op|] == op && LaidOut(args, r.value[|op|..])
    ensures Key(mnemonic, args) in Opcodes ==>
      forall i :: FirstFailing(args, i) ==> r == Failure(EncodeArg(args[i]).error)
  {
    var k := Key(mnemonic, args);
    if k !in Opcodes then Failure(KeyError)
    else
      match EncodeArgs(args)
      case Failure(e) => Failure(e)
      case Success(operands) =>
        assert (Opcodes[k] + operands)[|Opcodes[k]|..] == operands;
        Success(Opcodes[k] + operands)
  }

  /** The opcode table holds exactly two entries: MOV of a 32-bit immediate
      into a 64-bit register, and SYSCALL. */
  lemma OpcodeEntries()
    ensures Opcodes.Keys == {["mov", "64", "lit"], ["syscall"]}
    ensures Opcodes[["mov", "64", "lit"]] == [0x48, 0xC7] && Opcodes[["syscall"]] == [0x0F, 0x05]
  {
  }

  // ---------------------------------------------------------------------
  // A decoder for the two table entries, as the encoder's inverse

  /** The register whose ModRM byte is c, if any. */
  function RegisterName(c: byte): Option<string>
  {
    if 0xC0 <= c <= 0xC7 then
      Some(["rax", "rcx", "rdx", "rbx", "rsp", "rbp", "rsi", "rdi"][c - 0xC0])
    else None
  }

  /** Each register's ModRM byte names it back. */
  lemma RegisterNameInverse(name: string)
    requires name in Registers
    ensures RegisterName(Registers[name]) == Some(name)
  {
  }

  /** The register table gives each of the eight registers its own ModRM
      byte, mod 11 with the register number in r/m: C0 through C7. */
  lemma RegisterBytes()
    ensures forall r :: r in Registers ==> 0xC0 <= Registers[r] <= 0xC7
    ensures forall r, s :: r in Registers && s in Registers && Registers[r] == Registers[s] ==> r == s
  {
  }

  /** The mnemonic and operands an encoded instruction came from. */
  function Disassemble(code: seq<byte>): Option<(string, seq<Arg>)>
  {
    if code == [0x0F, 0x05] then Some(("syscall", []))
    else if |code| == 7 && code[..2] == [0x48, 0xC7] && RegisterName(code[2]).Some? then
      Some(("mov", [Reg(RegisterName(code[2]).value), Lit(FromBytes(code[3..]))]))
    else None
  }

  /** Decoding what the encoder produced gives back its input: no two
      inputs encode alike. */
  lemma DisassembleAsmCommand(mnemonic: string, args: seq<Arg>)
    requires AsmCommand(mnemonic, args).Success?
    ensures Disassemble(AsmCommand(mnemonic, args).value) == Some((mnemonic, args))
  {
    var k := Key(mnemonic, args);
    var code := AsmCommand(mnemonic, args).value;
    if k == ["syscall"] {
      assert args == [];
    } else {
      assert k == ["mov", "64", "lit"];
      assert k[1] == "64" && k[2] == "lit";
      assert Kind(args[0]) == "64" && Kind(args[1]) == "lit";
      assert args[0].Reg? && args[1].Lit?;
      var reg, imm := EncodeArg(args[0]).value, EncodeArg(args[1]).value;
      assert EncodeArgs(args[1..][1..]) == Success([]);
      assert EncodeArgs(args).value == reg + imm;
      assert code == [0x48, 0xC7] + reg + imm;
      RegisterNameInverse(args[0].name);
      assert code[3..] == imm;
      assert args == [Reg(args[0].name), Lit(args[1].value)];
    }
  }

  /** SYSCALL takes no operands and encodes to its two opcode bytes. */
  lemma SyscallEncoding()
    ensures AsmCommand("syscall", []).Success? && AsmCommand("syscall", []).value == [0x0F, 0x05]
  {
    assert Key("syscall", []) == ["syscall"];
    assert Opcodes[["syscall"]] == [0x0F, 0x05];
    assert EncodeArgs([]) == Success([]);
  }

  /** The MOVs of the hard-coded program: opcode, ModRM byte, then the
      immediate's 4 bytes, lowest first. */
  lemma MovEncodings()
    ensures AsmCommand("mov", [Reg("rdi"), Lit(1)]).Success?
    ensures AsmCommand("mov", [Reg("rdi"), Lit(1)]).value == [0x48, 0xC7, 0xC7, 0x01, 0x00, 0x00, 0x00]
    ensures AsmCommand("mov", [Reg("rsi"), Lit(0x004010DE)]).Success?
    ensures AsmCommand("mov", [Reg("rsi"), Lit(0x004010DE)]).value == [0x48, 0xC7, 0xC6, 0xDE, 0x10, 0x40, 0x00]
  {
    MovEncoding("rdi", 1, [0x01, 0x00, 0x00, 0x00]);
    MovEncoding("rsi", 0x004010DE, [0xDE, 0x10, 0x40, 0x00]);
  }

  /** A MOV of an immediate into a known register, given the immediate's
      4 bytes. */
  lemma MovEncoding(reg: string, imm: nat, bytes: seq<byte>)
    requires reg in Registers && |bytes| == 4 && FromBytes(bytes) == imm
    ensures AsmCommand("mov", [Reg(reg), Lit(imm)]) == Success([0x48, 0xC7, Registers[reg]] + bytes)
  {
    var args := [Reg(reg), Lit(imm)];
    assert Key("mov", args) == ["mov", "64", "lit"];
    assert Opcodes[["mov", "64", "lit"]] == [0x48, 0xC7];
    EncodeFromBytes(bytes);
    assert EncodeArg(Lit(imm)) == Success(bytes);
    assert args[1..][1..] == [];
    assert EncodeArgs(args[1..]) == Success(bytes + []);
    assert EncodeArgs(args) == Success([Registers[reg]] + (bytes + []));
    var op: seq<byte> := [0x48, 0xC7];
    assert op + ([Registers[reg]] + (bytes + [])) == [0x48, 0xC7, Registers[reg]] + bytes;
  }

  /** Operand kinds without a table entry and unknown registers raise
      KeyError; a negative immediate raises OverflowError. */
  lemma RejectedCommands()
    ensures AsmCommand("mov", [Reg("rax"), Reg("rdi")]) == Failure(KeyError)
    ensures AsmCommand("mov", [Reg("r8"), Lit(1)]) == Failure(KeyError)
    ensures AsmCommand("mov", [Reg("rax"), Lit(-1)]) == Failure(OverflowError)
  {
    assert Key("mov", [Reg("rax"), Reg("rdi")]) == ["mov", "64", "64"];
    assert Key("mov", [Reg("r8"), Lit(1)]) == ["mov", "64", "lit"];
    assert Key("mov", [Reg("rax"), Lit(-1)]) == ["mov", "64", "lit"];
  }

  /** With an unknown register and a negative immediate, the register is
      encoded first, so its KeyError is the one raised. */
  lemma FirstOperandErrorRaised()
    ensures AsmCommand("mov", [Reg("r8"), Lit(-1)]) == Failure(KeyError)
  {
    assert Key("mov", [Reg("r8"), Lit(-1)]) == ["mov", "64", "lit"];
    assert FirstFailing([Reg("r8"), Lit(-1)], 0);
  }
}
