/** The seekable memory device in its own form, and the program that exercises it. Every method is
    proved against MemSpec.Serve; the arithmetic inside is the driver's 64-bit arithmetic. */
module MemDevice {
  import opened Bytes
  import opened Errno
  import opened Integers
  import opened Machine64
  import opened MemSpec

  /** The driver's own ioctl commands, and any other number. */
  datatype Command = GetInfo | SetRdonly | Other

  class OpenFile {
    var fpos: int

    constructor ()
      ensures fpos == 0
    {
      fpos := 0;
    }
  }

  class ChrDevice {
    const buf: array<byte>
    var readOnly: int

    constructor (len: nat, readOnly: int)
      requires IsBufLen(len)
      ensures fresh(buf) && buf.Length == len && this.readOnly == readOnly
      ensures forall i | 0 <= i < len :: buf[i] == 0
    {
      buf := new byte[len](_ => 0);
      this.readOnly := readOnly;
    }

    /** The abstract store, seen through one open file (handle 0). */
    function View(f: OpenFile): Store
      reads this, buf, f
    {
      Store(buf[..], map[0 := f.fpos], readOnly)
    }

    ghost predicate Ready(f: OpenFile)
      reads this, buf, f
      ensures Ready(f) ==> View(f).Valid()
    {
      IsBufLen(buf.Length) && 0 <= f.fpos <= buf.Length
    }

    method CopyToUser(user: array<byte>, to: nat, from: nat, n: nat)
      requires user != buf && to + n <= user.Length && from + n <= buf.Length
      modifies user
      ensures user[..] == old(user[..to]) + buf[from..from + n] + old(user[to + n..])
    {
      var k := 0;
      while k < n
        invariant k <= n
        invariant forall i | 0 <= i < user.Length ::
                    user[i] == if to <= i < to + k then buf[from + (i - to)] else old(user[i])
      {
        user[to + k] := buf[from + k];
        k := k + 1;
      }
    }

    method CopyFromUser(user: array<byte>, from: nat, to: nat, n: nat)
      requires user != buf && from + n <= user.Length && to + n <= buf.Length
      modifies buf
      ensures buf[..] == Splice(old(buf[..]), to, user[from..from + n])
    {
      var k := 0;
      while k < n
        invariant k <= n
        invariant forall i | 0 <= i < buf.Length ::
                    buf[i] == if to <= i < to + k then user[from + (i - to)] else old(buf[i])
      {
        buf[to + k] := user[from + k];
        k := k + 1;
      }
    }

    method Read(f: OpenFile, user: array<byte>, at: nat, count: nat) returns (ret: int)
      requires Ready(f) && user != buf && at + count <= user.Length < TWO_63
      modifies f, user
      ensures View(f) == Serve(old(View(f)), 0, MemSpec.Read(count)).0 && Ready(f)
      ensures var bytes := Serve(old(View(f)), 0, MemSpec.Read(count)).1.bytes;
              ret == |bytes| && f.fpos == old(f.fpos) + ret
              && user[..] == old(user[..at]) + bytes + old(user[at + |bytes|..])
    {
      var n := Clamp(f.fpos, count, buf.Length);
      CopyToUser(user, at, f.fpos, n);
      f.fpos := f.fpos + n;
      ret := n;
    }

    method Write(f: OpenFile, user: array<byte>, at: nat, count: nat) returns (ret: int)
      requires Ready(f) && user != buf && at + count <= user.Length < TWO_63
      modifies f, buf
      ensures View(f) == Serve(old(View(f)), 0, MemSpec.Write(user[at..at + count])).0 && Ready(f)
      ensures var r := Serve(old(View(f)), 0, MemSpec.Write(user[at..at + count])).1;
              ret == (if r.Einval? then -EINVAL else r.n)
              && f.fpos == old(f.fpos) + if ret < 0 then 0 else ret
    {
      if readOnly != 0 {
        return -EINVAL;
      }
      var n := Clamp(f.fpos, count, buf.Length);
      assert user[at..at + count][..n] == user[at..at + n];
      CopyFromUser(user, at, f.fpos, n);
      f.fpos := f.fpos + n;
      ret := n;
    }

    method Seek(f: OpenFile, offset: int, whence: int) returns (ret: int)
      requires Ready(f) && IsS64(offset)
      modifies f
      ensures View(f) == Serve(old(View(f)), 0, MemSpec.Seek(offset, whence)).0 && Ready(f)
      ensures var r := Serve(old(View(f)), 0, MemSpec.Seek(offset, whence)).1;
              ret == if r.Einval? then -EINVAL else r.pos
      ensures var from := if whence == 0 then 0 else if whence == 1 then old(f.fpos) else buf.Length;
              if 0 <= whence <= 2 && 0 <= from + offset < buf.Length then ret == f.fpos == from + offset
              else ret == -EINVAL && f.fpos == old(f.fpos)
    {
      var newppos;
      if whence == SEEK_SET {
        newppos := offset;
      } else if whence == SEEK_CUR {
        newppos := S64(f.fpos + offset);
      } else if whence == SEEK_END {
        newppos := S64(U64(buf.Length + U64(offset)));
      } else {
        return -EINVAL;
      }
      assert Llseek(buf.Length, f.fpos, offset, whence) == IdealSeek(buf.Length, f.fpos, offset, whence);
      if newppos < 0 || U64(newppos) >= buf.Length {
        return -EINVAL;
      }
      f.fpos := newppos;
      ret := newppos;
    }

    method SetReadOnly(value: int, ghost f: OpenFile)
      requires Ready(f)
      modifies this`readOnly
      ensures View(f) == Serve(old(View(f)), 0, MemSpec.SetRdonly(value)).0 && Ready(f)
      ensures readOnly == value
    {
      readOnly := value;
    }

    /** The ioctl entry: a command of another driver is refused, GETINFO reports the flag, SET_RDONLY
        sets it, and any other command is unknown. */
    method Ioctl(own: bool, cmd: Command, value: int, ghost f: OpenFile) returns (ret: int, info: int)
      requires Ready(f)
      modifies this`readOnly
      ensures Ready(f)
      ensures ret == if !own then -EINVAL else if cmd.Other? then -ENOIOCTLCMD else 0
      ensures readOnly == if own && cmd.SetRdonly? then value else old(readOnly)
      ensures own && cmd.GetInfo? ==> info == old(readOnly)
      ensures var op := if !own then ForeignIoctl else
                        match cmd
                        case GetInfo => MemSpec.GetInfo
                        case SetRdonly => MemSpec.SetRdonly(value)
                        case Other => UnknownIoctl;
              View(f) == Serve(old(View(f)), 0, op).0
    {
      info := 0;
      if !own {
        return -EINVAL, 0;
      }
      match cmd {
        case GetInfo => info := readOnly;
        case SetRdonly => SetReadOnly(value, f);
        case Other => return -ENOIOCTLCMD, 0;
      }
      ret := 0;
    }
  }

  /* ----- the test program ----- */

  datatype Loop = Finished | Failed | Spinning

  /** Storing the next n bytes of data right behind its first c bytes stores its first c + n bytes. */
  lemma StoreNextChunk(start: seq<byte>, p: nat, data: seq<byte>, c: nat, n: nat)
    requires c + n <= |data| && p + c + n <= |start|
    ensures Splice(Splice(start, p, data[..c]), p + c, data[c..][..n]) == Splice(start, p, data[..c + n])
  {
    SpliceInTwo(start, p, data[..c], data[c..][..n]);
    assert data[..c] + data[c..][..n] == data[..c + n];
  }

  /** The write loop, watched for at most fuel rounds. It finishes exactly when there is room for all
      of the data on a writable device. On a read-only device it fails; and when the room runs out it
      is still spinning after any number of rounds, because a write at the end returns 0. */
  method WriteLoop(dev: ChrDevice, f: OpenFile, data: array<byte>, fuel: nat) returns (status: Loop)
    requires dev.Ready(f) && data != dev.buf && 0 < data.Length < TWO_63 && fuel >= 1
    modifies f, dev.buf
    ensures dev.Ready(f) && dev.readOnly == old(dev.readOnly)
    ensures status == Finished <==> dev.readOnly == 0 && old(f.fpos) + data.Length <= dev.buf.Length
    ensures status == Failed <==> dev.readOnly != 0
    ensures dev.readOnly != 0 ==> dev.View(f) == old(dev.View(f))
    ensures dev.readOnly == 0 ==>
              var n := Min(data.Length, dev.buf.Length - old(f.fpos));
              dev.buf[..] == Splice(old(dev.buf[..]), old(f.fpos), data[..][..n]) && f.fpos == old(f.fpos) + n
  {
    ghost var start, p, d := dev.buf[..], f.fpos, data[..];
    ghost var room := Min(|d|, |start| - p);
    var c, rounds := 0, 0;
    assert Splice(start, p, d[..0]) == start;
    while c < data.Length
      invariant dev.Ready(f) && c <= room && f.fpos == p + c && data[..] == d
      invariant dev.buf[..] == Splice(start, p, d[..c])
      invariant rounds <= fuel && (rounds == 0 ==> c == 0)
      invariant rounds > 0 ==> dev.readOnly == 0 && c == room
      decreases fuel - rounds
    {
      if rounds == fuel {
        return Spinning;
      }
      assert data[c..c + (data.Length - c)] == d[c..];
      var n := dev.Write(f, data, c, data.Length - c);
      if n < 0 {
        return Failed;
      }
      StoreNextChunk(start, p, d, c, n);
      c := c + n;
      rounds := rounds + 1;
    }
    status := Finished;
  }

  /** The read loop. It always ends: with a full buffer, or at the end of the device. */
  method ReadLoop(dev: ChrDevice, f: OpenFile, buf: array<byte>) returns (c: nat)
    requires dev.Ready(f) && buf != dev.buf && 0 < buf.Length < TWO_63
    modifies f, buf
    ensures dev.Ready(f)
    ensures c == Min(buf.Length, dev.buf.Length - old(f.fpos)) && f.fpos == old(f.fpos) + c
    ensures buf[..c] == dev.buf[old(f.fpos)..][..c]
  {
    c := 0;
    while c < buf.Length
      invariant dev.Ready(f) && f.fpos == old(f.fpos) + c
      invariant c == 0 || c == Min(buf.Length, dev.buf.Length - old(f.fpos))
      invariant c <= buf.Length && buf[..c] == dev.buf[old(f.fpos)..][..c]
      decreases buf.Length - c
    {
      var ret := dev.Read(f, buf, 0, buf.Length);
      if ret == 0 {
        break;
      }
      c := c + ret;
    }
  }

  /** The whole program on a freshly opened device, with the seek between the loops, watched for at
      most fuel rounds of its write loop. Its one buffer is what it writes and what it reads back
      into. It finishes exactly when the data fits a writable device; the data is then stored at the
      front, and reading it back leaves the buffer as it was. (The program passes the seek arguments
      in the wrong order; both are 0.) */
  method TestProgram(dev: ChrDevice, buf: array<byte>, fuel: nat) returns (status: Loop)
    requires IsBufLen(dev.buf.Length) && buf != dev.buf && 0 < buf.Length < TWO_63 && fuel >= 1
    modifies dev.buf, buf
    ensures dev.readOnly == old(dev.readOnly) && buf[..] == old(buf[..])
    ensures status == Finished <==> dev.readOnly == 0 && buf.Length <= dev.buf.Length
    ensures status == Failed <==> dev.readOnly != 0
    ensures dev.buf[..] == if dev.readOnly != 0 then old(dev.buf[..])
                           else Splice(old(dev.buf[..]), 0, old(buf[..])[..Min(buf.Length, dev.buf.Length)])
  {
    var f := new OpenFile();
    status := WriteLoop(dev, f, buf, fuel);
    if status != Finished {
      assert dev.View(f).buf == dev.buf[..];
      return;
    }
    var ret := dev.Seek(f, SEEK_SET, 0);
    assert ret == 0;
    var c := ReadLoop(dev, f, buf);
    assert dev.buf[0..][..c] == old(buf[..]);
  }
}
