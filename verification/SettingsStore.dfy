/**
 The settings store that the program keeps its state in (`QSettings`): a flat map from key paths to values,
 read and written relative to a cursor made of nested groups and arrays. Entry `i` of an array is stored
 under `<name>/<i+1>/...` and the length of the array under `<name>/size`.
 */
module SettingsStore {
  import Decimal
  import opened Listings

  type Path = seq<string>
  type Store = map<Path, Variant>

  datatype ImageSettings = ImageSettings(fileName: string, isWriteProtected: bool)

  /** The image that a value-initialised `ImageSettings` describes: no image at all. */
  const NO_IMAGE := ImageSettings("", false)

  function Lower(s: string): (r: string) {
    seq(|s|, i requires 0 <= i < |s| => if 'A' <= s[i] <= 'Z' then s[i] - 'A' + 'a' else s[i])
  }

  /** A stored value (`QVariant`) with the conversions the program uses. */
  datatype Variant =
    | Invalid
    | Text(text: string)
    | Flag(flag: bool)
    | Number(number: int)
    | Image(image: ImageSettings)
  {

    function ToText(): string {
      match this
      case Text(s) => s
      case Flag(b) => if b then "true" else "false"
      case Number(n) => Decimal.OfInt(n)
      case _ => ""
    }

    function ToBool(): bool {
      match this
      case Flag(b) => b
      case Number(n) => n != 0
      case Text(s) => Lower(s) !in {"", "0", "false"}
      case _ => false
    }

    function ToInt(): int {
      match this
      case Number(n) => n
      case Flag(b) => if b then 1 else 0
      case Text(s) => Decimal.ToInt(s)
      case _ => 0
    }

    function ToImage(): ImageSettings {
      match this
      case Image(i) => i
      case _ => NO_IMAGE
    }
  }

  function Lookup(d: Store, key: Path): Variant {
    if key in d then d[key] else Invalid
  }

  /** The texts that read as false: the empty one, a zero, and the word in any mixture of cases. */
  lemma TextToBool(s: string)
    ensures !Text(s).ToBool()
            <==> s == "" || s == "0"
                 || (|s| == 5 && s[0] in "fF" && s[1] in "aA" && s[2] in "lL" && s[3] in "sS" && s[4] in "eE")
  {
    var l := Lower(s);
    assert |l| == |s|;
    assert l == "false" <==> |l| == 5 && l[0] == 'f' && l[1] == 'a' && l[2] == 'l' && l[3] == 's' && l[4] == 'e';
    assert l == "0" <==> |l| == 1 && l[0] == '0';
    assert s == "0" <==> |s| == 1 && s[0] == '0';
  }

  /** A value stored as text, as a file of settings keeps it, reads as the value itself. */
  lemma StoredAsText(b: bool, n: int)
    requires -0x8000_0000 <= n < 0x8000_0000
    ensures Text(Flag(b).ToText()).ToBool() == Flag(b).ToBool() == b
    ensures Text(Number(n).ToText()).ToInt() == Number(n).ToInt() == n
  {
    TextToBool(if b then "true" else "false");
    Decimal.ReadBack(n);
  }

  /** One level of the cursor. In an array, `num` is one more than the chosen index, or 0 before any is chosen. */
  datatype Frame =
    | Group(name: string)
    | ReadArray(name: string, num: nat)
    | WriteArray(name: string, num: nat, size: nat)
  {
    function Segments(): Path {
      if Group? || num == 0 then [name] else [name, Decimal.OfInt(num)]
    }
  }

  function Prefix(stack: seq<Frame>): Path {
    if stack == [] then [] else Prefix(stack[..|stack| - 1]) + stack[|stack| - 1].Segments()
  }

  lemma PrefixPush(stack: seq<Frame>, f: Frame)
    ensures Prefix(stack + [f]) == Prefix(stack) + f.Segments()
  {
    assert (stack + [f])[..|stack|] == stack;
  }

  lemma PrefixOfOne(f: Frame)
    ensures Prefix([f]) == f.Segments()
  {
    PrefixPush([], f);
  }

  /** p is a proper prefix of k, that is, k is stored somewhere below the cursor p. */
  predicate Below(p: Path, k: Path) {
    p < k
  }

  /** Child keys and child groups of a cursor position, as the store lists them. */
  function ChildKeyNames(d: Store, p: Path): set<string> {
    set k | k in d && Below(p, k) && |k| == |p| + 1 :: k[|p|]
  }

  function ChildGroupNames(d: Store, p: Path): set<string> {
    set k | k in d && Below(p, k) && |k| > |p| + 1 :: k[|p|]
  }

  class Settings {
    var data: Store
    var stack: seq<Frame>

    /** No value is stored under the empty key. */
    ghost predicate Valid()
      reads this
    {
      [] !in data
    }

    constructor (stored: Store)
      requires [] !in stored
      ensures Valid() && data == stored && stack == []
    {
      data := stored;
      stack := [];
    }

    function Cursor(): Path
      reads this
    {
      Prefix(stack)
    }

    function Value(key: Path): Variant
      reads this
    {
      Lookup(data, Cursor() + key)
    }

    function ValueOr(key: Path, default: Variant): Variant
      reads this
    {
      if Cursor() + key in data then data[Cursor() + key] else default
    }

    method SetValue(key: Path, value: Variant)
      requires Valid() && key != []
      modifies this`data
      ensures Valid() && data == old(data)[Cursor() + key := value]
    {
      data := data[Cursor() + key := value];
    }

    method ChildKeys() returns (names: seq<string>)
      ensures ListsExactly(names, ChildKeyNames(data, Cursor()))
    {
      names := Listing(ChildKeyNames(data, Cursor()));
    }

    method ChildGroups() returns (names: seq<string>)
      ensures ListsExactly(names, ChildGroupNames(data, Cursor()))
    {
      names := Listing(ChildGroupNames(data, Cursor()));
    }

    method BeginGroup(name: string)
      modifies this`stack
      ensures stack == old(stack) + [Group(name)]
      ensures Cursor() == old(Cursor()) + [name]
    {
      PrefixPush(stack, Group(name));
      stack := stack + [Group(name)];
    }

    method EndGroup()
      modifies this`stack
      ensures stack == if old(stack) == [] then [] else old(stack)[..|old(stack)| - 1]
    {
      if stack != [] {
        stack := stack[..|stack| - 1];
      }
    }

    method BeginReadArray(name: string) returns (size: int)
      modifies this`stack
      ensures stack == old(stack) + [ReadArray(name, 0)]
      ensures Cursor() == old(Cursor()) + [name]
      ensures size == Lookup(data, old(Cursor()) + [name, "size"]).ToInt()
    {
      PrefixPush(stack, ReadArray(name, 0));
      assert Prefix(stack) + [name] + ["size"] == Prefix(stack) + [name, "size"];
      stack := stack + [ReadArray(name, 0)];
      size := Value(["size"]).ToInt();
    }

    method BeginWriteArray(name: string)
      requires Valid()
      modifies this
      ensures Valid() && stack == old(stack) + [WriteArray(name, 0, 0)]
      ensures Cursor() == old(Cursor()) + [name]
      ensures data == old(data) - {old(Cursor()) + [name, "size"]}
    {
      PrefixPush(stack, WriteArray(name, 0, 0));
      assert Prefix(stack) + [name] + ["size"] == Prefix(stack) + [name, "size"];
      stack := stack + [WriteArray(name, 0, 0)];
      data := data - {Cursor() + ["size"]};
    }

    /** Outside an array this does nothing; a negative index counts as 0. */
    method SetArrayIndex(i: int)
      modifies this`stack
      ensures stack == IndexedStack(old(stack), i)
    {
      if stack != [] && !stack[|stack| - 1].Group? {
        var num := (if i < 0 then 0 else i) + 1;
        var top := stack[|stack| - 1];
        stack := stack[..|stack| - 1] +
        [match top
         case ReadArray(name, _) => ReadArray(name, num)
         case WriteArray(name, _, size) => WriteArray(name, num, if num > size then num else size)];
      }
    }

    method EndArray()
      requires Valid()
      modifies this
      ensures Valid() && stack == if old(stack) == [] then [] else old(stack)[..|old(stack)| - 1]
      ensures data == if old(stack) != [] && old(stack)[|old(stack)| - 1].WriteArray?
                      then old(data)[Prefix(stack) + [old(stack)[|old(stack)| - 1].name, "size"] :=
                                       Number(old(stack)[|old(stack)| - 1].size)]
                      else old(data)
    {
      if stack != [] {
        var top := stack[|stack| - 1];
        stack := stack[..|stack| - 1];
        if top.WriteArray? {
          SetValue([top.name, "size"], Number(top.size));
        }
      }
    }
  }

  /** The cursor stack after choosing entry i of the innermost array. */
  function IndexedStack(stack: seq<Frame>, i: int): seq<Frame> {
    if stack == [] || stack[|stack| - 1].Group? then stack
    else
      var num := (if i < 0 then 0 else i) + 1;
      var top := stack[|stack| - 1];
      stack[..|stack| - 1] +
      [if top.ReadArray? then ReadArray(top.name, num)
       else WriteArray(top.name, num, if num > top.size then num else top.size)]
  }
}
