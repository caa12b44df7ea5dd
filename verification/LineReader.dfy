/** A stream that is read line by line, and numbers on lines of their own. */
module LineReader {
  import opened Decimal
  import opened Lines
  import opened Text

  /** An exhausted stream gives empty lines. */
  function Head(ls: seq<string>): string {
    if ls == [] then "" else ls[0]
  }

  function Tail(ls: seq<string>): seq<string> {
    if ls == [] then [] else ls[1..]
  }

  const INT_LIMIT: int := 0x8000_0000

  /** As boost::lexical_cast<int>. */
  function LexInt(s: string): Option<int> {
    SignedDigits(s, INT_LIMIT)
  }

  /** A reader gives a value and the lines it leaves, or fails. */
  datatype Read<+T> = Got(value: T, left: seq<string>) | Bad(message: string)

  function ReadInt(ls: seq<string>): Read<int> {
    match LexInt(Head(ls))
    case None => Bad("bad lexical cast")
    case Some(v) => Got(v, Tail(ls))
  }

  class IOHelper {
    var stream: string

    ghost function Left(): seq<string>
      reads this
    {
      Split(stream)
    }

    constructor (text: string)
      ensures stream == text
    {
      stream := text;
    }

    method GetLine() returns (ret: string)
      modifies this
      ensures ret == Head(old(Left())) && Left() == Tail(old(Left()))
    {
      if stream == "" {
        return "";
      }
      var line := FirstLine(stream);
      ret, stream := line.0, line.1;
    }

    method GetLineInt() returns (r: Option<int>)
      modifies this
      ensures match ReadInt(old(Left()))
              case Bad(_) => r == None
              case Got(v, left) => r == Some(v) && Left() == left
    {
      var tmp := GetLine();
      r := LexInt(tmp);
    }
  }
}
