/** Command-line helpers of fdbcli (fdbcli/Util.cpp): matching a typed token
    against a command name, and choosing what help to print for a command. */
module CliUtil {
  import opened Bytes
  import opened Text

  /** The bytes of a NUL-terminated C string, terminator included. */
  predicate IsCString(memory: seq<byte>)
  {
    0 in memory
  }

  /** strlen: the number of bytes before the first NUL. */
  function Strlen(memory: seq<byte>): (n: nat)
    requires IsCString(memory)
    ensures n < |memory| && memory[n] == 0
    ensures forall i :: 0 <= i < n ==> memory[i] != 0
  {
    if memory[0] == 0 then 0
    else
      assert 0 in memory[1..] by {
        var j :| 0 <= j < |memory| && memory[j] == 0;
        assert memory[1..][j - 1] == 0;
      }
      1 + Strlen(memory[1..])
  }

  /** The string a C string denotes. */
  function CStringValue(memory: seq<byte>): (r: seq<byte>)
    requires IsCString(memory)
    ensures 0 !in r
  {
    memory[..Strlen(memory)]
  }

  /** memcmp(a, b, n) == 0: the first n bytes agree. */
  function MemEqual(a: seq<byte>, b: seq<byte>, n: nat): (r: bool)
    requires n <= |a| && n <= |b|
    ensures r <==> a[..n] == b[..n]
  {
    if n == 0 then true
    else
      assert a[..n] == a[..n - 1] + [a[n - 1]];
      assert b[..n] == b[..n - 1] + [b[n - 1]];
      MemEqual(a, b, n - 1) && a[n - 1] == b[n - 1]
  }

  /** tokencmp(token, command): a length check, then a byte comparison of
      exactly that many bytes. */
  function TokenCmp(token: seq<byte>, command: seq<byte>): (r: bool)
    requires IsCString(command)
  {
    if |token| != Strlen(command) then false
    else MemEqual(token, command, |token|)
  }

  /** A token matches exactly the command it spells, byte for byte. */
  lemma TokenCmpIffEqual(token: seq<byte>, command: seq<byte>)
    requires IsCString(command)
    ensures TokenCmp(token, command) <==> token == CStringValue(command)
  {
    if |token| == Strlen(command) {
      assert token[..|token|] == token;
    }
  }

  /** Tokens of another length never match, whatever their bytes; the empty
      token matches only the empty command. */
  lemma TokenCmpLength(token: seq<byte>, command: seq<byte>)
    requires IsCString(command)
    ensures |token| != Strlen(command) ==> !TokenCmp(token, command)
    ensures token == [] ==> (TokenCmp(token, command) <==> command[0] == 0)
  {
  }

  /** Matching is case-sensitive: "ON" is not the command "on". */
  lemma TokenCmpCaseSensitive()
    ensures !TokenCmp([79, 78], [111, 110, 0])
    ensures TokenCmp([111, 110], [111, 110, 0])
  {
    assert Strlen([111, 110, 0]) == 2 by {
      assert [111, 110, 0][1..] == [110, 0];
      assert [110 as byte, 0][1..] == [0];
    }
    TokenCmpIffEqual([111, 110], [111, 110, 0]);
    TokenCmpIffEqual([79, 78], [111, 110, 0]);
  }

  /** CommandHelp: only the usage line is used here. */
  datatype CommandHelp = CommandHelp(usage: string, shortDesc: string, longDesc: string)

  /** Where printUsage writes, and what. */
  datatype Output = Stdout(text: string) | Stderr(text: string)

  /** printUsage(command): the usage line of a registered command, an error
      on standard error otherwise. */
  function PrintUsage(helpMap: map<string, CommandHelp>, command: seq<byte>): (r: Output)
    ensures r.Stdout? <==> BytesToString(command) in helpMap
    ensures r.Stdout? ==> r.text == "Usage: " + helpMap[BytesToString(command)].usage + "\n"
    ensures r.Stderr? ==> r.text == "ERROR: Unknown command `" + BytesToString(command) + "'\n"
  {
    var name := BytesToString(command);
    if name in helpMap then Stdout("Usage: " + helpMap[name].usage + "\n")
    else Stderr("ERROR: Unknown command `" + name + "'\n")
  }
}
