/** The values the command-line parser stores, and what it can raise. */
module CliValues {

  /** What `opts` can hold: the two sentinels, a command-line string, a tuple, a list built by
      `append`, the counter built by `count`, or a constant given at declaration. */
  datatype Value =
    | Unset
    | FlagNeedsValue
    | Text(text: string)
    | Tuple(items: seq<Value>)
    | List(items: seq<Value>)
    | Number(n: int)
    | Const(id: nat)

  datatype Option<+T> = None | Some(value: T)

  datatype Result<+T, +E> = Ok(value: T) | Err(error: E)

  /** What parsing can raise.  The first four are click's usage errors; the others are Python's own. */
  datatype Error =
    | NoSuchOption(name: string)
    | OptionNeedsValue(name: string, nargs: int)
    | OptionTakesNoValue(name: string)
    | BadArgumentUsage(dest: string, nargs: int)
    | TypeError
    | AssertionError
    | IndexError
    | AttributeError
  {
    predicate IsUsageError() {
      NoSuchOption? || OptionNeedsValue? || OptionTakesNoValue? || BadArgumentUsage?
    }
  }

  function Texts(tokens: seq<string>): (cells: seq<Value>)
    ensures |cells| == |tokens|
    ensures forall i :: 0 <= i < |tokens| ==> cells[i] == Text(tokens[i])
  {
    seq(|tokens|, i requires 0 <= i < |tokens| => Text(tokens[i]))
  }
}
