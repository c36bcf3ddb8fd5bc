/**
  The line format of the service messages written to standard output:
  `##octopus[name key="value" key="value"]`. `Format` is how the logger
  writes such a line; `Parse` is the partner definition, the reading an
  orchestrator applies to get the name and the attributes back.
 */
module ServiceMessageLine {
  import opened Wrappers

  datatype Attribute = Attribute(key: string, value: string)

  datatype Message = Message(name: string, attributes: seq<Attribute>)

  /** Every service message line starts with this text. */
  const Prefix: string := "##octopus["

  /** ` key="value"`: one attribute as written, with its leading space. */
  function AttributeText(a: Attribute): string
  {
    " " + a.key + "=\"" + a.value + "\""
  }

  function AttributesText(attributes: seq<Attribute>): string
    decreases |attributes|
  {
    if attributes == [] then ""
    else AttributeText(attributes[0]) + AttributesText(attributes[1..])
  }

  function Format(m: Message): (line: string)
    ensures |line| > |Prefix| && line[..|Prefix|] == Prefix && line[|line| - 1] == ']'
  {
    Prefix + m.name + AttributesText(m.attributes) + "]"
  }

  /**
    A message whose line reads back unambiguously: the name is non-empty
    and has no space, no key has `=`, and no value has `"`.
   */
  predicate WellFormed(m: Message)
  {
    && m.name != []
    && ' ' !in m.name
    && forall k | 0 <= k < |m.attributes| :: '=' !in m.attributes[k].key && '"' !in m.attributes[k].value
  }

  /** Index of the first `c` in `s`, or `|s|` when there is none. */
  function Find(s: string, c: char): (k: nat)
    ensures k <= |s|
    ensures k < |s| ==> s[k] == c
    ensures c !in s[..k]
    decreases |s|
  {
    if |s| == 0 then 0
    else if s[0] == c then 0
    else 1 + Find(s[1..], c)
  }

  /** Reads one ` key="value"` attribute at the start of `s`, and returns it with the text after it. */
  function ParseAttribute(s: string): (r: Option<(Attribute, string)>)
    ensures r.Some? ==> |r.value.1| < |s|
  {
    if s == [] || s[0] != ' ' then None
    else
      var t := s[1..];
      var k := Find(t, '=');
      if k + 1 >= |t| || t[k + 1] != '"' then None
      else
        var v := t[k + 2..];
        var e := Find(v, '"');
        if e == |v| then None
        else Some((Attribute(t[..k], v[..e]), v[e + 1..]))
  }

  /** Reads a sequence of ` key="value"` attributes. */
  function ParseAttributes(s: string): Option<seq<Attribute>>
    decreases |s|
  {
    if s == [] then Some([])
    else
      match ParseAttribute(s)
      case None => None
      case Some((a, rest)) =>
        match ParseAttributes(rest)
        case None => None
        case Some(more) => Some([a] + more)
  }

  /** Reads a service message line; `None` when the line is not one. */
  function Parse(line: string): Option<Message>
  {
    if |line| <= |Prefix| || line[..|Prefix|] != Prefix || line[|line| - 1] != ']' then None
    else
      var body := line[|Prefix|..|line| - 1];
      var n := Find(body, ' ');
      if n == 0 then None
      else
        match ParseAttributes(body[n..])
        case None => None
        case Some(attributes) => Some(Message(body[..n], attributes))
  }

  lemma {:induction false} FindAfter(x: string, y: string, c: char)
    requires c !in x
    ensures Find(x + y, c) == |x| + Find(y, c)
    decreases |x|
  {
    if |x| > 0 {
      assert (x + y)[1..] == x[1..] + y;
      FindAfter(x[1..], y, c);
    } else {
      assert x + y == y;
    }
  }

  /** After the leading space, the key runs up to the first `=`, which a `"` follows. */
  lemma ParseKeyPart(a: Attribute, rest: string)
    requires '=' !in a.key
    ensures var t := (AttributeText(a) + rest)[1..];
      && |a.key| + 1 < |t| && Find(t, '=') == |a.key| && t[..|a.key|] == a.key && t[|a.key| + 1] == '"'
      && t[|a.key| + 2..] == a.value + ("\"" + rest)
  {
    var v := a.value + ("\"" + rest);
    var t := a.key + ("=\"" + v);
    assert (AttributeText(a) + rest)[1..] == t;
    FindAfter(a.key, "=\"" + v, '=');
    assert t[..|a.key|] == a.key && t[|a.key| + 2..] == v;
  }

  /** The value runs up to the first `"`, and the rest follows it. */
  lemma ParseValuePart(value: string, rest: string)
    requires '"' !in value
    ensures var v := value + ("\"" + rest);
      && |value| < |v| && Find(v, '"') == |value| && v[..|value|] == value && v[|value| + 1..] == rest
  {
    var v := value + ("\"" + rest);
    FindAfter(value, "\"" + rest, '"');
    assert v[..|value|] == value && v[|value| + 1..] == rest;
  }

  lemma ParseOneAttribute(a: Attribute, rest: string)
    requires '=' !in a.key && '"' !in a.value
    ensures ParseAttribute(AttributeText(a) + rest) == Some((a, rest))
  {
    ParseKeyPart(a, rest);
    ParseValuePart(a.value, rest);
  }

  /** Reading back the attribute text gives back the attributes. */
  lemma {:induction false} ParseAttributesText(attributes: seq<Attribute>)
    requires forall k | 0 <= k < |attributes| :: '=' !in attributes[k].key && '"' !in attributes[k].value
    ensures ParseAttributes(AttributesText(attributes)) == Some(attributes)
    decreases |attributes|
  {
    if attributes != [] {
      var a, tail := attributes[0], attributes[1..];
      var s, rest := AttributesText(attributes), AttributesText(tail);
      assert s == AttributeText(a) + rest && s != [];
      ParseOneAttribute(a, rest);
      ParseAttributesText(tail);
      assert ParseAttributes(s) == Some([a] + tail);
      assert attributes == [a] + tail;
    }
  }

  /** Every well-formed message is read back exactly from the line written for it. */
  lemma ParseFormat(m: Message)
    requires WellFormed(m)
    ensures Parse(Format(m)) == Some(m)
  {
    var line := Format(m);
    var text := AttributesText(m.attributes);
    var body := line[|Prefix|..|line| - 1];
    assert body == m.name + text;
    FindAfter(m.name, text, ' ');
    assert text == [] || text[0] == ' ';
    assert Find(body, ' ') == |m.name|;
    assert body[..|m.name|] == m.name;
    assert body[|m.name|..] == text;
    ParseAttributesText(m.attributes);
  }

  /** A string split around its character at `i`. */
  lemma SplitAt(x: string, i: nat)
    requires i < |x|
    ensures x == x[..i] + ([x[i]] + x[i + 1..])
  {
  }

  /** A string split around its two characters at `i` and `i + 1`. */
  lemma SplitTwoAt(x: string, i: nat)
    requires i + 1 < |x|
    ensures x == x[..i] + ([x[i], x[i + 1]] + x[i + 2..])
  {
    assert x[i..] == [x[i], x[i + 1]] + x[i + 2..];
  }

  lemma AttributeTextThen(a: Attribute, rest: string)
    ensures AttributeText(a) + rest == " " + (a.key + ("=\"" + (a.value + ("\"" + rest))))
  {
    var x := a.value + ("\"" + rest);
    var y := a.key + ("=\"" + x);
    assert (" " + a.key + "=\"" + a.value + "\"") + rest == " " + y;
  }

  /** Reassembles ` key="value"` followed by the rest from its three splits. */
  lemma ComposeAttribute(s: string, t: string, key: string, v: string, value: string, rest: string)
    requires s == " " + t && t == key + ("=\"" + v) && v == value + ("\"" + rest)
    ensures s == AttributeText(Attribute(key, value)) + rest
  {
    AttributeTextThen(Attribute(key, value), rest);
  }

  /** An attribute that reads back was written from exactly the text it was read from. */
  lemma ParseAttributeInverse(s: string)
    requires ParseAttribute(s).Some?
    ensures var (a, rest) := ParseAttribute(s).value;
      && AttributeText(a) + rest == s && '=' !in a.key && '"' !in a.value
  {
    var t := s[1..];
    var k := Find(t, '=');
    var v := t[k + 2..];
    var e := Find(v, '"');
    var key, value, rest := t[..k], v[..e], v[e + 1..];
    assert ParseAttribute(s).value == (Attribute(key, value), rest);
    SplitAt(s, 0);
    SplitTwoAt(t, k);
    SplitAt(v, e);
    ComposeAttribute(s, t, key, v, value, rest);
  }

  /** Attribute text that reads back is the text written for the attributes read. */
  lemma {:induction false} ParseAttributesInverse(s: string)
    requires ParseAttributes(s).Some?
    ensures AttributesText(ParseAttributes(s).value) == s
    ensures var attributes := ParseAttributes(s).value;
      forall k | 0 <= k < |attributes| :: '=' !in attributes[k].key && '"' !in attributes[k].value
    decreases |s|
  {
    if s != [] {
      var (a, rest) := ParseAttribute(s).value;
      ParseAttributeInverse(s);
      ParseAttributesInverse(rest);
      var more := ParseAttributes(rest).value;
      assert ParseAttributes(s).value == [a] + more;
      assert ([a] + more)[1..] == more;
    }
  }

  /** A line framed by `Prefix` and `]` is the frame around its body. */
  lemma SplitFrame(line: string)
    requires |line| > |Prefix| && line[..|Prefix|] == Prefix && line[|line| - 1] == ']'
    ensures line == Prefix + (line[|Prefix|..|line| - 1] + "]")
  {
  }

  /** Reassembles a line from its frame, its name and its attribute text. */
  lemma ComposeLine(line: string, body: string, name: string, text: string, attributes: seq<Attribute>)
    requires line == Prefix + (body + "]") && body == name + text && text == AttributesText(attributes)
    ensures line == Format(Message(name, attributes))
  {
  }

  /**
    The converse of `ParseFormat`: a line that reads back as a message is
    exactly the line written for it, and that message is well-formed.
   */
  lemma FormatOfParse(line: string)
    requires Parse(line).Some?
    ensures WellFormed(Parse(line).value)
    ensures Format(Parse(line).value) == line
  {
    var m := Parse(line).value;
    var body := line[|Prefix|..|line| - 1];
    var n := Find(body, ' ');
    var text := body[n..];
    ParseAttributesInverse(text);
    assert m == Message(body[..n], ParseAttributes(text).value);
    assert m.name != [] && ' ' !in m.name;
    assert Format(m) == line by {
      SplitFrame(line);
      assert body == m.name + text;
      ComposeLine(line, body, m.name, text, m.attributes);
    }
  }

  lemma PrefixHasNoLineBreak()
    ensures '\n' !in Prefix && '\r' !in Prefix
  {
  }

  /** The attribute text holds no character absent from the punctuation, the keys and the values. */
  lemma {:induction false} AttributesTextAvoids(attributes: seq<Attribute>, c: char)
    requires c != ' ' && c != '=' && c != '"'
    requires forall k | 0 <= k < |attributes| :: c !in attributes[k].key && c !in attributes[k].value
    ensures c !in AttributesText(attributes)
    decreases |attributes|
  {
    if attributes != [] {
      AttributesTextAvoids(attributes[1..], c);
      var a := attributes[0];
      assert AttributesText(attributes) == " " + a.key + "=\"" + a.value + "\"" + AttributesText(attributes[1..]);
    }
  }

  /** A line holds no character absent from the frame, the name, the keys and the values. */
  lemma FormatAvoids(m: Message, c: char)
    requires c !in Prefix && c != ']' && c != ' ' && c != '=' && c != '"'
    requires c !in m.name
    requires forall k | 0 <= k < |m.attributes| :: c !in m.attributes[k].key && c !in m.attributes[k].value
    ensures c !in Format(m)
  {
    AttributesTextAvoids(m.attributes, c);
  }

  /** Two well-formed messages that are written as the same line are the same message. */
  lemma FormatInjective(m1: Message, m2: Message)
    requires WellFormed(m1) && WellFormed(m2)
    requires Format(m1) == Format(m2)
    ensures m1 == m2
  {
    ParseFormat(m1);
    ParseFormat(m2);
  }
}
