/**
 Reading a package name off a line of a requirements file. The completion
 handler matches `^([0-9a-zA-Z-_]+)(?:==)` against the text before the
 cursor, the hover handler matches `^([0-9a-zA-Z-_]+)` against the whole
 line; both are written here as a scan for the longest leading run of name
 characters.
 */
module RequirementsLine {
  import opened Options

  /** The character class `[0-9a-zA-Z-_]`: ASCII digits and letters, `-` and `_`. */
  predicate IsNameChar(c: char)
  {
    ('0' <= c <= '9') || ('a' <= c <= 'z') || ('A' <= c <= 'Z') || c == '-' || c == '_'
  }

  ghost predicate IsName(n: string)
  {
    |n| > 0 && forall k :: 0 <= k < |n| ==> IsNameChar(n[k])
  }

  /** How many characters the greedy `[0-9a-zA-Z-_]+` takes from the start of `s`. */
  function NameRunLength(s: string): (k: nat)
    ensures k <= |s|
    ensures forall i :: 0 <= i < k ==> IsNameChar(s[i])
    ensures k < |s| ==> !IsNameChar(s[k])
  {
    if s != [] && IsNameChar(s[0]) then 1 + NameRunLength(s[1..]) else 0
  }

  /** `document.lineAt(position).text.substring(0, position.character)`. */
  function LinePrefix(text: string, column: nat): (p: string)
    ensures p <= text
    ensures |p| == if column < |text| then column else |text|
  {
    if column < |text| then text[..column] else text
  }

  /** `m[1]` of `prefix.match(/^([0-9a-zA-Z-_]+)(?:==)/)`, or `None` when it does not match. */
  function CompletionName(prefix: string): (r: Option<string>)
    // a name found is a name, and the text starts with it followed by `==`
    ensures r.Some? ==> IsName(r.value) && r.value + "==" <= prefix
    // nothing is found when the text does not start with a name character
    ensures prefix == [] || !IsNameChar(prefix[0]) ==> r.None?
  {
    var k := NameRunLength(prefix);
    if k > 0 && k + 2 <= |prefix| && prefix[k] == '=' && prefix[k + 1] == '=' then Some(prefix[..k]) else None
  }

  /** `m[1]` of `line.match(/^([0-9a-zA-Z-_]+)/)`, or `None` when it does not match. */
  function HoverName(line: string): (r: Option<string>)
    // a name is found exactly when the line starts with a name character
    ensures r.Some? <==> line != [] && IsNameChar(line[0])
    ensures r.Some? ==> IsName(r.value) && r.value <= line
  {
    var k := NameRunLength(line);
    if k > 0 then Some(line[..k]) else None
  }

  /**
   The completion pattern, stated as the regular expression reads: the line
   starts with a name immediately followed by `==`. Since `=` is not a name
   character, backtracking cannot find a second split, so the name is unique.
   */
  ghost predicate CompletionMatch(prefix: string, name: string)
  {
    IsName(name) && name + "==" <= prefix
  }

  /** The hover pattern with greedy `+`: a name at the start that the next character does not extend. */
  ghost predicate HoverMatch(line: string, name: string)
  {
    IsName(name) && name <= line && (|name| == |line| || !IsNameChar(line[|name|]))
  }

  /** The scanner finds a name exactly when the line starts with one followed by `==`. */
  lemma CompletionNameCorrect(prefix: string, name: string)
    ensures CompletionName(prefix) == Some(name) <==> CompletionMatch(prefix, name)
  {
    var k := NameRunLength(prefix);
    if CompletionMatch(prefix, name) {
      var n := |name|;
      assert prefix[n] == '=' && prefix[n + 1] == '=';
      assert forall i :: 0 <= i < n ==> prefix[i] == name[i];
      assert k == n;
      assert prefix[..k] == name;
    }
    if CompletionName(prefix) == Some(name) {
      assert prefix[..k] + "==" == prefix[..k + 2];
    }
  }

  /** The scanner finds exactly the name the greedy pattern captures. */
  lemma HoverNameCorrect(line: string, name: string)
    ensures HoverName(line) == Some(name) <==> HoverMatch(line, name)
  {
    var k := NameRunLength(line);
    if HoverMatch(line, name) {
      var n := |name|;
      assert forall i :: 0 <= i < n ==> line[i] == name[i];
      assert k == n;
      assert line[..k] == name;
    }
  }

  /** What follows `name==` (a partly typed version, say) does not change the name found. */
  lemma CompletionIgnoresRest(name: string, rest: string)
    requires IsName(name)
    ensures CompletionName(name + "==" + rest) == Some(name)
  {
    CompletionNameCorrect(name + "==" + rest, name);
  }

  /** The text gives no completion name exactly when it holds no `name==` at its start. */
  lemma NoCompletionWithoutEquals(prefix: string)
    ensures CompletionName(prefix) == None <==> forall n :: IsName(n) ==> !(n + "==" <= prefix)
  {
    forall n | IsName(n) && n + "==" <= prefix
      ensures CompletionName(prefix) == Some(n)
    {
      CompletionNameCorrect(prefix, n);
    }
  }

  /** Once the cursor is past `name==`, moving it further right keeps the same name. */
  lemma CompletionStableAsCursorMoves(text: string, column: nat, later: nat)
    requires column <= later
    requires CompletionName(LinePrefix(text, column)).Some?
    ensures CompletionName(LinePrefix(text, later)) == CompletionName(LinePrefix(text, column))
  {
    var name := CompletionName(LinePrefix(text, column)).value;
    CompletionNameCorrect(LinePrefix(text, column), name);
    assert name + "==" <= LinePrefix(text, later);
    CompletionNameCorrect(LinePrefix(text, later), name);
  }

  /** A line that triggers completion shows the same package on hover. */
  lemma CompletionNameIsHoverName(text: string, column: nat)
    ensures CompletionName(LinePrefix(text, column)).Some? ==>
              HoverName(text) == CompletionName(LinePrefix(text, column))
  {
    var p := LinePrefix(text, column);
    if CompletionName(p).Some? {
      var name := CompletionName(p).value;
      CompletionNameCorrect(p, name);
      assert text[|name|] == '=';
      HoverNameCorrect(text, name);
    }
  }
}
