/** The two ends of the store as programs: the blob array and polling loop of the gadget, and the
    driver's read, write and ioctl, which run the protocol steps in order. */
module StoreDevices {
  import opened Usb
  import opened StoreProtocol

  const ENOERR: byte := 0
  const EINVALIDINDEX: byte := 2
  const EINVAL: int := 22
  const ENOTTY: int := 25

  /** teensy_blobs.c.  Index 256 passes the guard but lies behind the array; it is left out. */
  class BlobStore {
    const blobs: array<uint16>

    constructor ()
      ensures fresh(blobs) && blobs.Length == MAX_BLOBS && blobs[..] == Cleared()
    {
      blobs := new uint16[MAX_BLOBS](_ => 0);
      new;
      assert blobs[..] == Cleared();
    }

    method Store(index: uint64, data: uint16) returns (err: byte)
      requires blobs.Length == MAX_BLOBS && index != 256
      modifies blobs
      ensures blobs[..] == Stored(old(blobs[..]), index, data)
      ensures err == if index < MAX_BLOBS then ENOERR else EINVALIDINDEX
    {
      if index > MAX_BLOBS { return EINVALIDINDEX; }
      blobs[index] := data;
      return ENOERR;
    }

    method Read(index: uint64, variable: uint16) returns (err: byte, data: uint16)
      requires blobs.Length == MAX_BLOBS && index != 256
      ensures data == Fetched(blobs[..], index, variable)
      ensures err == if index < MAX_BLOBS then ENOERR else EINVALIDINDEX
    {
      if index > MAX_BLOBS { return EINVALIDINDEX, variable; }
      return ENOERR, blobs[index];
    }

    method Delete(index: uint64) returns (err: byte)
      requires blobs.Length == MAX_BLOBS && index != 256
      modifies blobs
      ensures blobs[..] == Stored(old(blobs[..]), index, 0)
      ensures err == if index < MAX_BLOBS then ENOERR else EINVALIDINDEX
    {
      if index > MAX_BLOBS { return EINVALIDINDEX; }
      blobs[index] := 0;
      return ENOERR;
    }
  }

  /** gadget/main.c: the task state, the banks of its three endpoints, and the store. */
  class GadgetDevice {
    const store: BlobStore
    var command: byte
    var index: uint64
    var inBank: Option<InPacket>
    var outBank: Option<uint16>
    var cmdBank: Option<UsbCommand>

    ghost predicate Valid()
      reads this
    {
      store.blobs.Length == MAX_BLOBS && index != 256 && (cmdBank.Some? ==> cmdBank.value.index != 256)
    }

    ghost function View(): Gadget
      reads this, store.blobs
    {
      Gadget(command, index, store.blobs[..], inBank, outBank, cmdBank)
    }

    constructor ()
      ensures Valid() && fresh(store) && fresh(store.blobs) && View() == Initial().gadget
    {
      store := new BlobStore();
      command, index := CMD_NULL, 0;
      inBank, outBank, cmdBank := None, None, None;
    }

    /** One pass; `variable` is what the uninitialised local `data` happens to hold. */
    method StoreTask(variable: uint16)
      requires Valid()
      modifies this, store.blobs
      ensures Valid() && View() == PollingPass(old(View()), variable)
    {
      if inBank.None? {
        var packet := NoData;
        if command == CMD_READ {
          var _, data := store.Read(index, variable);
          packet := Value(data);
        }
        inBank := Some(packet);
      }
      if outBank.Some? {
        if command == CMD_STORE {
          var _ := store.Store(index, outBank.value);
        }
        outBank := None;
      }
      if cmdBank.Some? {
        var cmd := cmdBank.value;
        if cmd.kind == CMD_DELETE {
          var _ := store.Delete(cmd.index);
        }
        command := cmd.kind;
        index := cmd.index;
        inBank, outBank := None, None;
        cmdBank := None;
      }
    }
  }

  const TEENSY_MAGIC: byte := 't' as int
  const TEENSY_IOC_MAXNR: nat := 3

  /** An ioctl command word of Linux: the number in the low byte, the type in the next one, then size and
      direction, which are 0 for a command without data. */
  function CommandNumber(cmd: uint32): byte { cmd % 256 }

  function CommandType(cmd: uint32): byte { cmd / 256 % 256 }

  const TEENSY_IOCFLUSH: uint32 := 256 * ('t' as int) + 1
  const TEENSY_IOCERASE_IDX: uint32 := 256 * ('t' as int) + 2

  /** What can go wrong around one driver call, and how many gadget passes fit in between. */
  datatype Surroundings = Surroundings(
    interrupted: bool,      // down_interruptible
    copyInFails: bool,      // copy_from_user
    commandFails: bool,     // first usb_bulk_msg, with the length it reports
    commandLength: int,
    passes: seq<uint16>,    // gadget passes before the data transfer
    dataFails: bool,        // second usb_bulk_msg, with the length it reports
    dataLength: int,
    copyOutFails: bool)     // copy_to_user

  /** file_ops.c, with the system the calls act on. */
  class Driver {
    var sys: System

    ghost predicate Valid()
      reads this
    {
      Inv(sys) && sys.phase.Idle? && sys.gadget.cmdBank.None?
    }

    constructor ()
      ensures Valid() && sys == Initial()
    {
      InitialInv();
      sys := Initial();
    }

    method Do(step: Step)
      requires Inv(sys) && Enabled(sys, step)
      modifies this
      ensures Inv(sys) && sys == Next(old(sys), step)
    {
      StepInv(sys, step);
      sys := Next(sys, step);
    }

    /** Gadget passes while the driver waits. */
    method Passes(junk: seq<uint16>)
      requires Inv(sys)
      modifies this
      ensures Inv(sys) && sys.history == old(sys.history)
      ensures junk == [] ==> sys == old(sys)
      ensures junk != [] ==> sys.gadget.cmdBank.None? && sys.phase == Seen(old(sys.phase))
      ensures |junk| >= 2 ==> sys.gadget.inBank.Some?
    {
      for k := 0 to |junk|
        invariant Inv(sys) && sys.history == old(sys.history)
        invariant k == 0 ==> sys == old(sys)
        invariant k > 0 ==> sys.gadget.cmdBank.None? && sys.phase == Seen(old(sys.phase))
        invariant k > 1 ==> sys.gadget.inBank.Some?
      {
        Do(Pass(junk[k]));
      }
    }

    /** teensy_read: the value goes to `user`, the result is the length of the last transfer. */
    method Read(kind: byte, index: uint64, buffer: uint16, env: Surroundings) returns (result: int, user: uint16)
      requires Valid() && index != 256 && env.passes != []
      modifies this
      ensures Valid()
      // a call that meets no fault returns the register's value
      ensures !env.interrupted && !env.copyInFails && kind == CMD_READ && !env.commandFails && |env.passes| >= 2
              && !env.dataFails && !env.copyOutFails
        ==> result == 2 && (index < MAX_BLOBS ==> user == Registers(old(sys.history))[index])
      // every other path returns what the source leaves in its length, and the caller's buffer as it was
      ensures env.interrupted || env.copyInFails || kind != CMD_READ ==> result == 0 && user == buffer
      ensures !env.interrupted && !env.copyInFails && kind == CMD_READ && (env.commandFails || env.dataFails)
        ==> user == buffer && result == if env.commandFails then env.commandLength else env.dataLength
      ensures !env.interrupted && !env.copyInFails && kind == CMD_READ && !env.commandFails && |env.passes| >= 2
              && !env.dataFails && env.copyOutFails
        ==> result == 0 && user == buffer
      // and no call ever changes a register
      ensures Registers(sys.history) == Registers(old(sys.history))
    {
      hide Inv, Registers;
      var actualLen := 0;
      user := buffer;
      if env.interrupted || env.copyInFails || kind != CMD_READ { return 0, user; }
      if env.commandFails { return env.commandLength, user; }
      Send(Operation.Read(index));
      Passes(env.passes);
      if env.dataFails || sys.gadget.inBank.None? {
        Do(TimeOut);
        return env.dataLength, user;
      }
      ghost var h := sys.history;
      PacketIsRegister(sys, index);
      var packet := sys.gadget.inBank.value;
      Do(TakeData);
      RegistersSnoc(h, DidRead(index, packet.v));
      actualLen := 2;
      if env.copyOutFails { return 0, user; }
      return actualLen, packet.v;
    }

    /** teensy_write */
    method Write(kind: byte, index: uint64, data: uint16, env: Surroundings) returns (result: int)
      requires Valid() && index != 256 && env.passes != []
      modifies this
      ensures Valid()
      ensures Registers(sys.history)
           == if !env.interrupted && !env.copyInFails && kind == CMD_STORE && !env.commandFails && !env.dataFails
              then Apply(Registers(old(sys.history)), DidWrite(index, data)) else Registers(old(sys.history))
      ensures result
              == (if !env.interrupted && !env.copyInFails && kind == CMD_STORE && !env.commandFails && !env.dataFails
                         then 2 else 0)
    {
      hide Inv, Registers;
      if env.interrupted || env.copyInFails || kind != CMD_STORE { return 0; }
      if env.commandFails { return 0; }
      Send(Operation.Write(index, data));
      Passes(env.passes);
      OutBankFree(sys);
      if env.dataFails {
        Do(TimeOut);
        return 0;
      }
      ghost var h := sys.history;
      Do(GiveData);
      RegistersSnoc(h, DidWrite(index, data));
      return 2;
    }

    /** teensy_ioctl: the magic and number checks, then the command word as a whole; an erase that could
        not be sent is logged and still returns 0. */
    method Ioctl(cmd: uint32, index: uint64, env: Surroundings) returns (result: int)
      requires Valid() && index != 256
      modifies this
      ensures Inv(sys) && sys.phase.Idle?
      ensures result == if CommandType(cmd) != TEENSY_MAGIC || CommandNumber(cmd) >= TEENSY_IOC_MAXNR then -ENOTTY
                        else if env.interrupted || cmd == TEENSY_IOCFLUSH || cmd == TEENSY_IOCERASE_IDX then 0
                        else -EINVAL
      ensures Registers(sys.history)
           == if cmd == TEENSY_IOCERASE_IDX && !env.interrupted && !env.commandFails
              then Apply(Registers(old(sys.history)), DidErase(index)) else Registers(old(sys.history))
    {
      hide Inv, Registers;
      if CommandType(cmd) != TEENSY_MAGIC { return -ENOTTY; }
      if CommandNumber(cmd) >= TEENSY_IOC_MAXNR { return -ENOTTY; }
      if env.interrupted { return 0; }
      if cmd == TEENSY_IOCFLUSH {
        result := 0;
      } else if cmd == TEENSY_IOCERASE_IDX {
        if !env.commandFails {
          ghost var h := sys.history;
          Do(Begin(Erase(index)));
          RegistersSnoc(h, DidErase(index));
        }
        result := 0;
      } else {
        result := -EINVAL;
      }
    }

    method Send(op: Operation)
      requires Valid() && op.index != 256 && !op.Erase?
      modifies this
      ensures Inv(sys) && sys == Next(old(sys), Begin(op)) && sys.history == old(sys.history)
    {
      Do(Begin(op));
    }
  }

  /** What a read finds in its bank after a pass. */
  lemma PacketIsRegister(s: System, index: uint64)
    requires Inv(s) && s.phase == Reading(index, true) && s.gadget.inBank.Some?
    ensures s.gadget.inBank.value.Value?
    ensures index < MAX_BLOBS ==> s.gadget.inBank.value.v == Registers(s.history)[index]
  {}

  lemma OutBankFree(s: System)
    requires Inv(s) && s.phase.Writing? && s.phase.seen
    ensures s.gadget.outBank.None? && s.gadget.cmdBank.None?
  {}
}
