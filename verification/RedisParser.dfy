/**
 * `RedisParser`: the incremental parser with its fields, its two array stacks
 * and its bulk-copy fast path, proved against the push-down machine.
 */
module RedisParsers {
  import opened Bytes
  import opened RespProtocol
  import opened RespMachine

  datatype ParseResult = ParseCompleted | ParseIncompleted | ParseError

  datatype State =
    | Start | StartArray
    | StringState | StringLF
    | ErrorString | ErrorLF
    | IntegerState | IntegerLF
    | BulkSize | BulkSizeLF | BulkState | BulkCR | BulkLF
    | ArraySize | ArraySizeLF

  /** The part of the parser's fields that matters in a state. */
  function ModeOf(state: State, buf: seq<Byte>, bulkSize: int): Mode {
    match state
    case Start => Begin
    case StartArray => Begin
    case StringState => Text(false, buf)
    case StringLF => TextLF(false, buf)
    case ErrorString => Text(true, buf)
    case ErrorLF => TextLF(true, buf)
    case IntegerState => Number(IntegerRole, buf)
    case IntegerLF => NumberLF(IntegerRole, buf)
    case BulkSize => Number(BulkSizeRole, buf)
    case BulkSizeLF => NumberLF(BulkSizeRole, buf)
    case BulkState => Payload(buf, bulkSize)
    case BulkCR => PayloadCR(buf)
    case BulkLF => PayloadLF(buf)
    case ArraySize => Number(ArraySizeRole, buf)
    case ArraySizeLF => NumberLF(ArraySizeRole, buf)
  }

  function MovedFrom(v: Value): Value {
    match v
    case ByteArray(_, e) => ByteArray([], e)
    case Array(_) => Array([])
    case _ => v
  }

  /** The two parallel stacks read as one stack of open arrays. */
  ghost function Frames(sizes: seq<int>, values: seq<Value>, declared: seq<int>): (fs: seq<Frame>)
    requires |sizes| == |values| == |declared|
    requires forall i :: 0 <= i < |values| ==> values[i].Array?
    ensures |fs| == |sizes|
  {
    seq(|sizes|, i requires 0 <= i < |sizes| => Frame(sizes[i], values[i].elems, declared[i]))
  }

  class RedisParser {
    var states: seq<State>
    var bulkSize: int
    var buf: seq<Byte>
    var redisValue: Value
    var arraySizes: seq<int>
    var arrayValues: seq<Value>
    ghost var declared: seq<int>  // the announced size of every open array

    ghost predicate StacksMatch()
      reads this
    {
      && |arraySizes| == |arrayValues| == |declared|
      && forall i :: 0 <= i < |arrayValues| ==> arrayValues[i].Array?
    }

    ghost function Stack(): seq<Frame>
      requires StacksMatch()
      reads this
    {
      Frames(arraySizes, arrayValues, declared)
    }

    ghost function ConfigAt(state: State): Config
      requires StacksMatch()
      reads this
    {
      Config(ModeOf(state, buf, bulkSize), Stack())
    }

    function Resting(): State
      reads this
    {
      if states == [] then Start else states[|states| - 1]
    }

    /** The configuration the next chunk starts from. */
    ghost function Cfg(): Config
      requires StacksMatch()
      reads this
    {
      ConfigAt(Resting())
    }

    ghost predicate Valid()
      reads this
    {
      && StacksMatch()
      && |states| <= 1
      && ConfigOk(Cfg())
      && (states != [] && Cfg().mode == Begin ==> arraySizes != [])
    }

    constructor ()
      ensures Valid() && Cfg() == IDLE
    {
      states, bulkSize, buf, redisValue := [], 0, [], Nil;
      arraySizes, arrayValues, declared := [], [], [];
    }

    /** `bufToLong` with its assertion compiled out. */
    static method BufToLong(str: seq<Byte>) returns (value: int)
      ensures value == TextToLong(str)
    {
      value := 0;
      if |str| == 0 {
        return;
      }
      var from := 0;
      if str[0] == DASH {
        from := 1;
        if |str| == 1 {
          return;
        }
      }
      var i := from;
      while i < |str|
        invariant from <= i <= |str|
        invariant value == Accumulate(str[from..i])
      {
        assert str[from..i + 1][..i - from] == str[from..i];
        value := value * 10;
        value := value + (str[i] as int - 48);
        i := i + 1;
      }
      assert str[from..|str|] == if from == 1 then str[1..] else str;
      return if from == 1 then -value else value;
    }

    /** `arrayValues.top().getArray().push_back(redisValue)` */
    method PushElement()
      requires StacksMatch() && arraySizes != []
      modifies `arrayValues
      ensures StacksMatch()
      ensures Stack() == old(Below()) + [old(Top()).(elems := old(Top()).elems + [redisValue])]
    {
      var top := |arrayValues| - 1;
      arrayValues := arrayValues[top := Array(arrayValues[top].elems + [redisValue])];
    }

    /** `--arraySizes.top()` */
    method CountDown() returns (left: int)
      requires StacksMatch() && arraySizes != []
      modifies `arraySizes
      ensures StacksMatch()
      ensures left == old(Top()).remaining - 1
      ensures Stack() == old(Below()) + [old(Top()).(remaining := left)]
    {
      var top := |arraySizes| - 1;
      left := arraySizes[top] - 1;
      arraySizes := arraySizes[top := left];
    }

    /** Pops both stacks; the finished array becomes the current value. */
    method PopArray()
      requires StacksMatch() && arraySizes != []
      modifies `arraySizes, `arrayValues, `declared, `redisValue
      ensures StacksMatch()
      ensures Stack() == old(Below()) && redisValue == Array(old(Top()).elems)
    {
      var top := |arraySizes| - 1;
      arraySizes := arraySizes[..top];
      redisValue := arrayValues[top];
      arrayValues, declared := arrayValues[..top], declared[..top];
    }

    ghost function Top(): Frame
      requires StacksMatch() && arraySizes != []
      reads this
    {
      Stack()[|Stack()| - 1]
    }

    ghost function Below(): seq<Frame>
      requires StacksMatch() && arraySizes != []
      reads this
    {
      Stack()[..|Stack()| - 1]
    }

    /** How far a delivery heading for `o` has come: the array that took the last
        value is not counted down yet, or everything is done. */
    ghost predicate Delivering(o: Outcome, counted: bool)
      reads this
    {
      && StacksMatch()
      && if arraySizes == [] then o == Done(redisValue)
         else if counted then o == More(Config(Begin, Stack()))
         else Carried(Below(), Top(), o)
    }

    /** One turn of the loop below. */
    method CountDownAndClose(ghost o: Outcome) returns (left: int)
      requires arraySizes != [] && Delivering(o, false)
      modifies `arraySizes, `arrayValues, `declared, `redisValue
      ensures Delivering(o, left != 0)
      ensures |arraySizes| <= |old(arraySizes)| && (left == 0 ==> |arraySizes| < |old(arraySizes)|)
    {
      left := CountDown();
      if left == 0 {
        PopArray();
        if arraySizes != [] {
          PushElement();
        }
      }
    }

    /** The loop that hands a finished value to the open arrays. */
    method FinishValue()
      requires StacksMatch() && StackOk(Stack())
      modifies `arraySizes, `arrayValues, `declared, `redisValue
      ensures Delivering(Deliver(old(Stack()), old(redisValue)), true)
      ensures StackOk(Stack())
    {
      ghost var o := Deliver(Stack(), redisValue);
      DeliverKeepsOk(Stack(), redisValue);
      if arraySizes != [] {
        PushElement();
        var left := 0;
        while arraySizes != [] && left == 0
          invariant Delivering(o, left != 0)
          decreases |arraySizes|, if left == 0 then 1 else 0
        {
          left := CountDownAndClose(o);
        }
      }
    }

    /**
     * What one turn of the `switch` in `parseChunk` achieved, started from
     * configuration `cfg` on the byte at `from`: it failed, it finished a value
     * (left in `redisValue`), or it moved on to `state`; and it consumed the
     * input up to `position`.
     */
    ghost predicate Switched(cfg: Config, chunk: seq<Byte>, from: nat, state: State, position: nat, failed: bool)
      reads this
    {
      && StacksMatch() && StackOk(Stack())
      && from < position <= |chunk|
      && var r := Run(cfg, chunk, from);
      && if failed then r == Failed(position, Config(Begin, Stack()))
         else if state == Start then r == Resume(Deliver(Stack(), redisValue), Stack(), chunk, position)
         else
           && ModeOk(ModeOf(state, buf, bulkSize))
           && (state == StartArray ==> arraySizes != [])
           && r == Run(ConfigAt(state), chunk, position)
    }

    /** `case StartArray`, `case Start` */
    method OnStart(c: Byte, chunk: seq<Byte>, from: nat) returns (state: State, failed: bool)
      requires from < |chunk| && chunk[from] == c
      requires StacksMatch() && StackOk(Stack())
      modifies `buf, `bulkSize
      ensures Switched(Config(Begin, Stack()), chunk, from, state, from + 1, failed)
      ensures !failed ==> state != Start
    {
      hide TextToLong, Deliver, Run;
      RunStep(Config(Begin, Stack()), chunk, from);
      buf := [];
      state, failed := Start, false;
      if c == PLUS {
        state := StringState;
      } else if c == DASH {
        state := ErrorString;
      } else if c == COLON {
        state := IntegerState;
      } else if c == DOLLAR {
        state := BulkSize;
        bulkSize := 0;
      } else if c == STAR {
        state := ArraySize;
      } else {
        failed := true;
      }
    }

    /** `case String`, `case ErrorString`, `case StringLF`, `case ErrorLF` */
    method OnLine(state0: State, c: Byte, chunk: seq<Byte>, from: nat) returns (state: State, failed: bool)
      requires from < |chunk| && chunk[from] == c
      requires state0 in {StringState, ErrorString, StringLF, ErrorLF}
      requires StacksMatch() && ConfigOk(ConfigAt(state0))
      modifies `buf, `redisValue
      ensures Switched(old(ConfigAt(state0)), chunk, from, state, from + 1, failed)
    {
      hide TextToLong, Deliver, Run;
      RunStep(ConfigAt(state0), chunk, from);
      state, failed := state0, false;
      if state0 == StringState || state0 == ErrorString {
        if c == CR {
          state := if state0 == StringState then StringLF else ErrorLF;
        } else if IsPrintable(c) {
          buf := buf + [c];
        } else {
          failed := true;
        }
      } else if c == LF {
        state := Start;
        redisValue := ByteArray(buf, state0 == ErrorLF);
      } else {
        failed := true;
      }
    }

    /** `case Integer`, `case BulkSize`, `case ArraySize` */
    method OnDigits(state0: State, c: Byte, chunk: seq<Byte>, from: nat) returns (state: State, failed: bool)
      requires from < |chunk| && chunk[from] == c
      requires state0 in {IntegerState, BulkSize, ArraySize}
      requires StacksMatch() && ConfigOk(ConfigAt(state0))
      modifies `buf
      ensures Switched(old(ConfigAt(state0)), chunk, from, state, from + 1, failed)
    {
      hide TextToLong, Deliver, Run;
      RunStep(ConfigAt(state0), chunk, from);
      state, failed := state0, false;
      if c == CR {
        if buf == [] {
          failed := true;
        } else {
          state := match state0
            case IntegerState => IntegerLF
            case BulkSize => BulkSizeLF
            case _ => ArraySizeLF;
        }
      } else if IsDigit(c) || c == DASH {
        buf := buf + [c];
      } else {
        failed := true;
      }
    }

    /** `case IntegerLF` */
    method OnIntegerLF(c: Byte, chunk: seq<Byte>, from: nat) returns (state: State, failed: bool)
      requires from < |chunk| && chunk[from] == c
      requires StacksMatch() && ConfigOk(ConfigAt(IntegerLF))
      modifies `buf, `redisValue
      ensures Switched(old(ConfigAt(IntegerLF)), chunk, from, state, from + 1, failed)
    {
      hide TextToLong, Deliver, Run;
      RunStep(ConfigAt(IntegerLF), chunk, from);
      state, failed := IntegerLF, false;
      if c == LF {
        var value := BufToLong(buf);
        buf := [];
        redisValue := Int(value);
        state := Start;
      } else {
        failed := true;
      }
    }

    /** `case ArraySizeLF` */
    method OnArraySizeLF(c: Byte, chunk: seq<Byte>, from: nat) returns (state: State, failed: bool)
      requires from < |chunk| && chunk[from] == c
      requires StacksMatch() && ConfigOk(ConfigAt(ArraySizeLF))
      modifies `redisValue, `arraySizes, `arrayValues, `declared
      ensures Switched(old(ConfigAt(ArraySizeLF)), chunk, from, state, from + 1, failed)
    {
      hide TextToLong, Deliver, Run;
      RunStep(ConfigAt(ArraySizeLF), chunk, from);
      state, failed := ArraySizeLF, false;
      if c == LF {
        var arraySize := BufToLong(buf);
        if arraySize == -1 {
          state := Start;
          redisValue := Nil;
        } else if arraySize == 0 {
          state := Start;
          redisValue := Array([]);
        } else if arraySize < 0 {
          failed := true;
        } else {
          OpenArray(arraySize);
          state := StartArray;
        }
      } else {
        failed := true;
      }
    }

    method OpenArray(size: int)
      requires StacksMatch() && size > 0
      modifies `arraySizes, `arrayValues, `declared
      ensures StacksMatch() && Stack() == old(Stack()) + [Frame(size, [], size)]
    {
      arraySizes := arraySizes + [size];
      arrayValues, declared := arrayValues + [Array([])], declared + [size];
    }

    /** The fast path behind a bulk size: takes over what the chunk already holds. */
    method CopyAvailable(chunk: seq<Byte>, from: nat) returns (state: State, position: nat)
      requires from <= |chunk| && buf == [] && bulkSize > 0 && StacksMatch()
      modifies `buf, `bulkSize
      ensures from <= position <= |chunk| && state in {BulkState, BulkCR} && (state == BulkState ==> bulkSize > 0)
      ensures Run(Config(Payload([], old(bulkSize)), Stack()), chunk, from) == Run(ConfigAt(state), chunk, position)
    {
      hide Run, Step;
      var available := |chunk| - from;
      var canRead := if available < bulkSize then available else bulkSize;
      PayloadCopy([], bulkSize, chunk, from, canRead, Stack());
      assert [] + chunk[from..from + canRead] == chunk[from..from + canRead];
      position := from;
      if canRead > 0 {
        buf := chunk[position..position + canRead];
        position := position + canRead;
        bulkSize := bulkSize - canRead;
      }
      state := if bulkSize > 0 then BulkState else BulkCR;
    }

    /** `case BulkSizeLF`: on a positive size, copies what the chunk already holds. */
    method OnBulkSizeLF(c: Byte, chunk: seq<Byte>, from: nat) returns (state: State, position: nat, failed: bool)
      requires from < |chunk| && chunk[from] == c
      requires StacksMatch() && ConfigOk(ConfigAt(BulkSizeLF))
      modifies `buf, `bulkSize, `redisValue
      ensures Switched(old(ConfigAt(BulkSizeLF)), chunk, from, state, position, failed)
    {
      hide TextToLong, Deliver, Run;
      RunStep(ConfigAt(BulkSizeLF), chunk, from);
      state, position, failed := BulkSizeLF, from + 1, false;
      if c == LF {
        bulkSize := BufToLong(buf);
        buf := [];
        if bulkSize == -1 {
          state := Start;
          redisValue := Nil;
        } else if bulkSize == 0 {
          state := BulkCR;
        } else if bulkSize < 0 {
          failed := true;
        } else {
          state, position := CopyAvailable(chunk, position);
        }
      } else {
        failed := true;
      }
    }

    /** `case Bulk`: copies as much of the payload as the chunk holds. */
    method OnBulk(chunk: seq<Byte>, from: nat) returns (state: State, position: nat)
      requires from < |chunk|
      requires StacksMatch() && ConfigOk(ConfigAt(BulkState))
      modifies `buf, `bulkSize
      ensures Switched(old(ConfigAt(BulkState)), chunk, from, state, position, false)
    {
      hide TextToLong, Deliver, Run;
      assert bulkSize > 0;  // as asserted in the source
      var available := |chunk| - from;
      var canRead := if available < bulkSize then available else bulkSize;
      PayloadCopy(buf, bulkSize, chunk, from, canRead, Stack());
      buf := buf + chunk[from..from + canRead];
      bulkSize := bulkSize - canRead;
      position := from + canRead;
      state := if bulkSize == 0 then BulkCR else BulkState;
    }

    /** `case BulkCR`, `case BulkLF` */
    method OnBulkEnd(state0: State, c: Byte, chunk: seq<Byte>, from: nat) returns (state: State, failed: bool)
      requires from < |chunk| && chunk[from] == c
      requires state0 in {BulkCR, BulkLF}
      requires StacksMatch() && ConfigOk(ConfigAt(state0))
      modifies `redisValue
      ensures Switched(old(ConfigAt(state0)), chunk, from, state, from + 1, failed)
    {
      hide TextToLong, Deliver, Run;
      RunStep(ConfigAt(state0), chunk, from);
      state, failed := state0, false;
      if state0 == BulkCR {
        if c == CR {
          state := BulkLF;
        } else {
          failed := true;
        }
      } else if c == LF {
        state := Start;
        redisValue := ByteArray(buf, false);
      } else {
        failed := true;
      }
    }

    /** The `switch` of `parseChunk`. */
    method Switch(state0: State, chunk: seq<Byte>, from: nat) returns (state: State, position: nat, failed: bool)
      requires from < |chunk|
      requires StacksMatch() && ConfigOk(ConfigAt(state0))
      modifies `buf, `bulkSize, `redisValue, `arraySizes, `arrayValues, `declared
      ensures Switched(old(ConfigAt(state0)), chunk, from, state, position, failed)
    {
      var c := chunk[from];
      position, failed := from + 1, false;
      match state0
      case StartArray => state, failed := OnStart(c, chunk, from);
      case Start => state, failed := OnStart(c, chunk, from);
      case IntegerLF => state, failed := OnIntegerLF(c, chunk, from);
      case ArraySizeLF => state, failed := OnArraySizeLF(c, chunk, from);
      case BulkSizeLF => state, position, failed := OnBulkSizeLF(c, chunk, from);
      case BulkState => state, position := OnBulk(chunk, from);
      case BulkCR => state, failed := OnBulkEnd(state0, c, chunk, from);
      case BulkLF => state, failed := OnBulkEnd(state0, c, chunk, from);
      case IntegerState => state, failed := OnDigits(state0, c, chunk, from);
      case BulkSize => state, failed := OnDigits(state0, c, chunk, from);
      case ArraySize => state, failed := OnDigits(state0, c, chunk, from);
      case _ => state, failed := OnLine(state0, c, chunk, from);
    }

    /**
     * One turn of the loop of `parseChunk` achieved this: it failed, it completed
     * a reply (`state` is then `Start` and no array is open), or it goes on.
     */
    ghost predicate Turned(r: Result, chunk: seq<Byte>, state: State, position: nat, failed: bool)
      requires StacksMatch() && position <= |chunk|
      reads this
    {
      if failed then r == Failed(position, Config(Begin, Stack()))
      else if state == Start && arraySizes == [] then r == Completed(position, redisValue)
      else
        && ConfigOk(ConfigAt(state)) && (state == StartArray ==> arraySizes != [])
        && r == Run(ConfigAt(state), chunk, position)
    }

    /** One turn of the loop: the `switch`, and a finished value goes to the open arrays. */
    method Turn(state0: State, chunk: seq<Byte>, from: nat) returns (state: State, position: nat, failed: bool)
      requires from < |chunk|
      requires StacksMatch() && ConfigOk(ConfigAt(state0))
      modifies `buf, `bulkSize, `redisValue, `arraySizes, `arrayValues, `declared
      ensures StacksMatch() && StackOk(Stack()) && from < position <= |chunk|
      ensures Turned(Run(old(ConfigAt(state0)), chunk, from), chunk, state, position, failed)
    {
      hide Step, Deliver, Run;
      state, position, failed := Switch(state0, chunk, from);
      if !failed && state == Start {
        FinishValue();
      }
    }

    /** How a call of `parseChunk` must turn out when the machine's run is `r`. */
    ghost predicate Reports(r: Result, size: nat, position: nat, result: ParseResult)
      requires StacksMatch()
      reads this
    {
      match r
      case Completed(n, v) => result == ParseCompleted && position == n && redisValue == v && Cfg() == IDLE
      case Incompleted(c) => result == ParseIncompleted && position == size && Cfg() == c
      case Failed(n, c) => result == ParseError && position == n && Cfg() == c
    }

    /**
     * `parseChunk`.  Except for the empty chunk on an idle parser, which the
     * source reports as completed, a call does what the byte-step machine does:
     * same verdict, same number of bytes consumed, same value, same resting
     * configuration.
     */
    method ParseChunk(chunk: seq<Byte>) returns (position: nat, result: ParseResult)
      requires Valid()
      modifies this
      ensures Valid()
      ensures chunk == [] && old(Cfg()) == IDLE ==>
        result == ParseCompleted && position == 0 && Cfg() == IDLE && redisValue == old(redisValue)
      ensures chunk != [] || old(Cfg()) != IDLE ==>
        Reports(Run(old(Cfg()), chunk, 0), |chunk|, position, result)
    {
      hide Step, Deliver;
      position := 0;
      var state := Start;
      if states != [] {
        state := states[|states| - 1];
        states := states[..|states| - 1];
      }
      ghost var cfg := ConfigAt(state);
      ghost var r := Run(cfg, chunk, 0);
      while position < |chunk|
        invariant position <= |chunk| && states == []
        invariant position == 0 ==> redisValue == old(redisValue)
        invariant StacksMatch() && ConfigOk(ConfigAt(state)) && r == Run(ConfigAt(state), chunk, position)
        invariant state == StartArray || (state == Start && position > 0) ==> arraySizes != []
        invariant position == 0 ==> ConfigAt(state) == cfg
      {
        var failed;
        state, position, failed := Turn(state, chunk, position);
        if failed {
          return position, ParseError;
        }
        if state == Start && arraySizes == [] {
          break;
        }
      }
      if arraySizes == [] && state == Start {
        result := ParseCompleted;
      } else {
        states := [state];
        result := ParseIncompleted;
      }
    }

    /** `RedisValue(RedisValue&&)` leaves an emptied value of the same kind behind. */
    method Result() returns (v: Value)
      modifies `redisValue
      ensures v == old(redisValue)
      ensures redisValue ==
        match v
        case ByteArray(_, e) => ByteArray([], e)
        case Array(_) => Array([])
        case _ => v
    {
      v := redisValue;
      redisValue := MovedFrom(redisValue);
    }
  }

  /** The innermost open array `top` has taken a value that its count does not
      show yet; `o` is the outcome the delivery is heading for. */
  ghost predicate Carried(below: seq<Frame>, top: Frame, o: Outcome) {
    o == if top.remaining - 1 == 0 then Deliver(below, Array(top.elems))
         else More(Config(Begin, below + [top.(remaining := top.remaining - 1)]))
  }
}
