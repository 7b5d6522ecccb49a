/** The pipe object, and the manager that hands out its two descriptors. */
module IpcClass {
  import opened ByteStrings
  import opened PipeModel

  class PipeObject {
    const readFd: int
    const writeFd: int
    var buffer: seq<Byte>
    var writeClosed: bool
    var readClosed: bool

    constructor (readFd: int, writeFd: int)
      ensures this.readFd == readFd && this.writeFd == writeFd
      ensures View() == Pipe([], false, false)
    {
      this.readFd := readFd;
      this.writeFd := writeFd;
      buffer := [];
      writeClosed, readClosed := false, false;
    }

    function View(): Pipe
      reads this
    {
      Pipe(buffer, writeClosed, readClosed)
    }

    method Write(data: seq<Byte>) returns (n: int)
      modifies this
      ensures (View(), n) == PipeModel.Write(old(View()), data)
    {
      if writeClosed || readClosed {
        return EPIPE;
      }
      for i := 0 to |data|
        invariant PushAll(buffer, data[i..]) == PushAll(old(buffer), data)
        invariant writeClosed == old(writeClosed) && readClosed == old(readClosed)
      {
        assert data[i..][0] == data[i] && data[i..][1..] == data[i + 1..];
        buffer := Push(buffer, data[i]);
      }
      return |data|;
    }

    method Read(size: int) returns (result: seq<Byte>)
      modifies this
      ensures (View(), result) == PipeModel.Read(old(View()), size)
    {
      result := [];
      var n := if size <= 0 then 0 else if size < |buffer| then size else |buffer|;
      for i := 0 to n
        invariant result == old(buffer)[..i] && buffer == old(buffer)[i..]
        invariant writeClosed == old(writeClosed) && readClosed == old(readClosed)
      {
        result := result + [buffer[0]];
        buffer := buffer[1..];
      }
    }

    method CloseWrite()
      modifies this
      ensures View() == old(View()).(writeClosed := true)
    {
      writeClosed := true;
    }

    method CloseRead()
      modifies this
      ensures View() == old(View()).(readClosed := true)
    {
      readClosed := true;
    }
  }

  class IpcManager {
    var pipes: map<int, PipeObject>
    var nextPipeFd: int

    ghost predicate Linked(fd: int)
      reads this
      requires fd in pipes
    {
      var p := pipes[fd];
      && (fd == p.readFd || fd == p.writeFd)
      && p.readFd in pipes && pipes[p.readFd] == p
      && p.writeFd in pipes && pipes[p.writeFd] == p
    }

    /** Both ends of every pipe lead to it, and no descriptor leads to two pipes. */
    ghost predicate Valid()
      reads this
    {
      && nextPipeFd >= 100
      && forall fd :: fd in pipes ==> 100 <= fd < nextPipeFd && Linked(fd)
    }

    constructor ()
      ensures Valid() && pipes == map[] && nextPipeFd == 100
    {
      pipes := map[];
      nextPipeFd := 100;
    }

    method CreatePipe() returns (pipe: PipeObject)
      requires Valid()
      modifies this
      ensures Valid() && fresh(pipe) && pipe.View() == Pipe([], false, false)
      ensures pipe.readFd == old(nextPipeFd) && pipe.writeFd == pipe.readFd + 1 && nextPipeFd == pipe.writeFd + 1
      ensures pipe.readFd !in old(pipes) && pipe.writeFd !in old(pipes)
      ensures pipes == old(pipes)[pipe.readFd := pipe][pipe.writeFd := pipe]
    {
      var readFd := nextPipeFd;
      var writeFd := nextPipeFd + 1;
      nextPipeFd := nextPipeFd + 2;
      pipe := new PipeObject(readFd, writeFd);
      pipes := pipes[readFd := pipe][writeFd := pipe];
      forall fd | fd in pipes ensures Linked(fd) {
        if fd in old(pipes) {
          assert old(Linked(fd));
        }
      }
    }
  }
}
