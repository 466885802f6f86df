/** The CMD0 packet: a list of named 32-bit commands. */
module Commands {
  import opened Bits
  import opened Bytes
  import opened Wrappers

  type Name = s: seq<byte> | |s| == 4 witness [0, 0, 0, 0]

  const CMD0: Name := [0x43, 0x4D, 0x44, 0x30]

  /** IntCmd or FloatCmd; a float is kept as its bits. */
  datatype Value = IntValue(v: u32) | FloatValue(bits: u32)
  {
    /** The 32 bits on the wire, which do not tell the two apart. */
    function Wire(): u32 {
      match this
      case IntValue(v) => v
      case FloatValue(bits) => bits
    }
  }

  datatype Cmd = Cmd(name: Name, value: Value)

  /** strlen of c_str(). */
  function StrLen(s: string): (n: nat)
    ensures n <= |s|
    ensures forall i :: 0 <= i < n ==> s[i] != '\0'
    ensures n < |s| ==> s[n] == '\0'
  {
    if s == [] || s[0] == '\0' then 0 else 1 + StrLen(s[1..])
  }

  function Ascii(c: char): byte {
    (c as int) % 256
  }

  /** The Cmd constructor: it throws unless the name is exactly four characters long. */
  function MakeCmd(name: string, value: Value): Result<Cmd, string> {
    if StrLen(name) != 4 then Failure("Command name must be exactly 4 characters.")
    else Success(Cmd([Ascii(name[0]), Ascii(name[1]), Ascii(name[2]), Ascii(name[3])], value))
  }

  function CmdBytes(c: Cmd): (s: seq<byte>)
    ensures |s| == 8
  {
    c.name + Put32(c.value.Wire())
  }

  function CmdsBytes(cs: seq<Cmd>): seq<byte> {
    if cs == [] then [] else CmdsBytes(cs[..|cs| - 1]) + CmdBytes(cs[|cs| - 1])
  }

  function Serialized(cs: seq<Cmd>): seq<byte> {
    CMD0 + CmdsBytes(cs)
  }

  class CmdSet {
    var packetName: Name
    var commands: seq<Cmd>

    constructor ()
      ensures packetName == CMD0 && commands == []
    {
      packetName, commands := CMD0, [];
    }

    method Append(cmd: Cmd)
      modifies `commands
      ensures commands == old(commands) + [cmd]
    {
      commands := commands + [cmd];
    }

    method Serialize() returns (buffer: seq<byte>)
      ensures packetName == CMD0 ==> buffer == Serialized(commands)
    {
      hide CmdBytes;
      buffer := packetName;
      var i := 0;
      while i < |commands|
        invariant 0 <= i <= |commands|
        invariant buffer == packetName + CmdsBytes(commands[..i])
      {
        assert commands[..i + 1][..i] == commands[..i];
        buffer := buffer + CmdBytes(commands[i]);
        i := i + 1;
      }
      assert commands[..i] == commands;
    }
  }

  // ---- Reading the packet back ----

  /** A command as the sonar sees it. */
  datatype Received = Received(name: Name, wire: u32)

  function Seen(cs: seq<Cmd>): (r: seq<Received>)
    ensures |r| == |cs|
  {
    seq(|cs|, i requires 0 <= i < |cs| => Received(cs[i].name, cs[i].value.Wire()))
  }

  function ReadWord(s: seq<byte>): u32
    requires |s| == 4
  {
    BigEndianOnto(s);
    Width4();
    BigEndian(s)
  }

  function ParseCmds(s: seq<byte>): Option<seq<Received>> {
    if s == [] then Some([])
    else if |s| < 8 then None
    else
      match ParseCmds(s[..|s| - 8])
      case None => None
      case Some(front) => Some(front + [Received(s[|s| - 8..|s| - 4], ReadWord(s[|s| - 4..]))])
  }

  function Parse(s: seq<byte>): Option<seq<Received>> {
    if |s| < 4 || s[..4] != CMD0 then None else ParseCmds(s[4..])
  }

  lemma {:induction false} WordReadsBack(v: u32)
    ensures ReadWord(Put32(v)) == v
  {
    Width4();
    BigEndianRoundTrip(v, 4);
  }

  lemma {:induction false} CmdsReadBack(cs: seq<Cmd>)
    ensures |CmdsBytes(cs)| == 8 * |cs|
    ensures ParseCmds(CmdsBytes(cs)) == Some(Seen(cs))
  {
    hide ReadWord, Put32, Seen, Value.Wire;
    if cs == [] {
      SeenNothing();
    } else {
      var front, last := cs[..|cs| - 1], cs[|cs| - 1];
      CmdsReadBack(front);
      var w := last.value.Wire();
      ParseSnoc(CmdsBytes(front), last.name, Put32(w));
      assert CmdsBytes(cs) == CmdsBytes(front) + last.name + Put32(w);
      WordReadsBack(w);
      SeenSnoc(cs);
    }
  }

  lemma {:induction false} ParseSnoc(front: seq<byte>, name: Name, word: seq<byte>)
    requires ParseCmds(front).Some? && |word| == 4
    ensures ParseCmds(front + name + word) == Some(ParseCmds(front).value + [Received(name, ReadWord(word))])
  {
    hide ReadWord;
    var s := front + name + word;
    assert s[..|s| - 8] == front && s[|s| - 8..|s| - 4] == name && s[|s| - 4..] == word;
  }

  lemma {:induction false} SeenNothing()
    ensures Seen([]) == []
  {
  }

  lemma {:induction false} SeenSnoc(cs: seq<Cmd>)
    requires cs != []
    ensures Seen(cs) == Seen(cs[..|cs| - 1]) + [Received(cs[|cs| - 1].name, cs[|cs| - 1].value.Wire())]
  {
    hide Value.Wire;
  }

  /** Command-packet round trip: 4 + 8n bytes, and reading them gives back every name and 32-bit value in
      append order. */
  lemma {:induction false} PacketReadsBack(cs: seq<Cmd>)
    ensures |Serialized(cs)| == 4 + 8 * |cs|
    ensures Parse(Serialized(cs)) == Some(Seen(cs))
  {
    CmdsReadBack(cs);
    assert Serialized(cs)[4..] == CmdsBytes(cs);
  }

  /** Two command lists serialize alike exactly when they agree up to the int or float tag. */
  lemma {:induction false} SerializationInjective(a: seq<Cmd>, b: seq<Cmd>)
    ensures Serialized(a) == Serialized(b) <==> Seen(a) == Seen(b)
  {
    hide Parse;
    PacketReadsBack(a);
    PacketReadsBack(b);
    if Seen(a) == Seen(b) {
      SameSeen(a, b);
    }
  }

  lemma {:induction false} SameSeen(a: seq<Cmd>, b: seq<Cmd>)
    requires Seen(a) == Seen(b)
    ensures CmdsBytes(a) == CmdsBytes(b)
  {
    hide Put32;
    assert |a| == |Seen(a)| == |Seen(b)| == |b|;
    if a == [] {
    } else {
      var n := |a| - 1;
      assert Seen(a)[n] == Seen(b)[n];
      assert Seen(a[..n]) == Seen(a)[..n] && Seen(b[..n]) == Seen(b)[..n];
      SameSeen(a[..n], b[..n]);
    }
  }
}
