/** Start-up control: the mode switch and the button read through GPIO, and
    the role and pipe addressing that init_radio chooses for the board. */
module Control {

  /** The two node addresses; a board in sender mode is node 0. */
  const ADDRESSES: seq<string> := ["1Node", "2Node"]

  /** The reading pipe number both roles open. */
  const READING_PIPE: nat := 1

  /** leer_modo: any non-zero switch level reads as mode 1 (receive), level
      0 as mode 0 (send). gpioRead may also return a negative error code. */
  function ReadMode(level: int): (mode: int)
    ensures mode == 0 || mode == 1
  {
    if level != 0 then 1 else 0
  }

  /** boton_presionado: the button has a pull-up, so pressed reads 0. */
  function ButtonPressed(level: int): (pressed: bool)
    ensures pressed <==> level == 0
  {
    level == 0
  }

  /** esEnvio in main: mode 0 is the sending role. */
  function IsSenderMode(mode: int): (sender: bool)
    ensures sender <==> mode == ReadMode(0)
  {
    mode == 0
  }

  /** The switch pulled to ground selects the sender role and nothing else
      does: a high level or a GPIO read error selects the receiver. */
  lemma SwitchSelectsRole(level: int)
    ensures IsSenderMode(ReadMode(level)) <==> level == 0
    ensures level < 0 ==> ReadMode(level) == 1
  {
  }

  /** The pull-up reading: a button held down pulls the pin to ground and
      counts as pressed; a released button reads high and a failed read
      returns a negative code, and neither counts. */
  lemma ButtonLevels(level: int)
    ensures ButtonPressed(0)
    ensures level == 1 || level < 0 ==> !ButtonPressed(level)
  {
  }

  /** What init_radio leaves configured for a role. */
  datatype RadioSetup = RadioSetup(
    thisNode: nat,
    otherNode: nat,
    writingPipe: string,
    readingPipeNumber: nat,
    readingPipe: string,
    listening: bool)

  /** The configuration init_radio applies for a role: node indices, a
      writing pipe to the other node's address, the own address on reading
      pipe 1, and listening only in the receiving role. */
  function RoleSetup(sender: bool): (c: RadioSetup)
    ensures c.thisNode < 2 && c.otherNode < 2 && c.thisNode != c.otherNode
    ensures c.thisNode == 0 <==> sender
    ensures c.writingPipe == ADDRESSES[c.otherNode]
    ensures c.readingPipe == ADDRESSES[c.thisNode]
    ensures c.readingPipeNumber == READING_PIPE
    ensures c.listening <==> !sender
  {
    var me := if sender then 0 else 1;
    var other := 1 - me;
    RadioSetup(me, other, ADDRESSES[other], READING_PIPE, ADDRESSES[me], !sender)
  }

  /** The two roles address each other: each one writes to the address the
      other reads on, and no board reads on the address it writes to. */
  lemma PeersAddressEachOther()
    ensures RoleSetup(true).writingPipe == RoleSetup(false).readingPipe == "2Node"
    ensures RoleSetup(false).writingPipe == RoleSetup(true).readingPipe == "1Node"
    ensures forall sender: bool :: RoleSetup(sender).writingPipe != RoleSetup(sender).readingPipe
  {
    forall sender: bool
      ensures RoleSetup(sender).writingPipe != RoleSetup(sender).readingPipe
    {
      var c := RoleSetup(sender);
      assert c.writingPipe[0] != c.readingPipe[0];
    }
  }

  /** The globals init_radio sets and the radio state it configures. */
  class Radio {
    var thisNodeIndex: int
    var otherNodeIndex: int
    var writingPipe: string
    var readingPipe: string
    var readingPipeNumber: nat
    var listening: bool

    /** The radio as the program starts: node 0 facing node 1, no pipe open. */
    constructor ()
      ensures thisNodeIndex == 0 && otherNodeIndex == 1
      ensures writingPipe == [] && readingPipe == [] && readingPipeNumber == 0
      ensures !listening
    {
      thisNodeIndex := 0;
      otherNodeIndex := 1;
      writingPipe := [];
      readingPipe := [];
      readingPipeNumber := 0;
      listening := false;
    }

    function Setup(): RadioSetup
      reads this
      requires 0 <= thisNodeIndex && 0 <= otherNodeIndex
    {
      RadioSetup(thisNodeIndex, otherNodeIndex, writingPipe, readingPipeNumber, readingPipe, listening)
    }

    /** init_radio: when the driver starts, the role's configuration is
        applied and true returned; otherwise nothing changes and false is
        returned. */
    method InitRadio(sender: bool, driverStarts: bool) returns (ok: bool)
      modifies this
      ensures ok == driverStarts
      ensures !ok ==> unchanged(this)
      ensures ok ==> 0 <= thisNodeIndex && 0 <= otherNodeIndex && Setup() == RoleSetup(sender)
    {
      if !driverStarts {
        return false;
      }
      if sender {
        thisNodeIndex := 0;
        otherNodeIndex := 1;
        writingPipe := ADDRESSES[otherNodeIndex];
        readingPipeNumber := READING_PIPE;
        readingPipe := ADDRESSES[thisNodeIndex];
        listening := false;
      } else {
        thisNodeIndex := 1;
        otherNodeIndex := 0;
        writingPipe := ADDRESSES[otherNodeIndex];
        readingPipeNumber := READING_PIPE;
        readingPipe := ADDRESSES[thisNodeIndex];
        listening := true;
      }
      ok := true;
    }
  }

  /** main's start-up: the switch level decides the role init_radio gets;
      a board whose switch is low comes up as node 0 writing to "2Node". */
  lemma StartupRole(level: int)
    ensures var c := RoleSetup(IsSenderMode(ReadMode(level)));
      (level == 0 ==> c.thisNode == 0 && c.writingPipe == "2Node" && !c.listening) &&
      (level != 0 ==> c.thisNode == 1 && c.writingPipe == "1Node" && c.listening)
  {
  }
}
