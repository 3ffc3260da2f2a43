/**
 * Option tokens: recognising an option, stripping its prefix, and trimming
 * an argument value.
 */
module OptionNames {
  import opened Strings
  import opened Datatypes

  /** `isOption`: whether a token is treated as an option. */
  function IsOption(name: string): (r: bool)
    ensures r <==> |name| > 0 && name[0] == '-'
  {
    (|name| >= 2 && name[..2] == "--") || (|name| >= 1 && name[..1] == "-")
  }

  /** `getOptionName`: strips one leading `--`, or else one leading `-`. */
  function GetOptionName(name: string): (r: string)
    ensures |r| <= |name|
    ensures |r| < |name| <==> IsOption(name)
  {
    if |name| >= 2 && name[..2] == "--" then name[2..]
    else if |name| >= 1 && name[..1] == "-" then name[1..]
    else name
  }

  /** `getOptionName` only removes a prefix: one or two dashes, two exactly when the name starts with `--`. */
  lemma OptionNameShape(name: string)
    ensures var r := GetOptionName(name);
      && |name| <= |r| + 2 && r == name[|name| - |r|..]
      && (forall i :: 0 <= i < |name| - |r| ==> name[i] == '-')
      && (|name| - |r| == 2 <==> |name| >= 2 && name[..2] == "--")
  {
  }

  /** A name with either prefix, or none if it does not itself start with a dash, normalises to itself. */
  lemma OptionNamePrefixes(n: string)
    ensures GetOptionName("--" + n) == n
    ensures !IsOption(n) ==> GetOptionName("-" + n) == n && GetOptionName(n) == n
  {
    assert ("--" + n)[..2] == "--";
    assert ("-" + n)[..1] == "-";
  }

  /** A bare dash is an option token, and so is a bare double dash; both name the empty option. */
  lemma BareDashes()
    ensures IsOption("-") && GetOptionName("-") == ""
    ensures IsOption("--") && GetOptionName("--") == ""
  {
  }

  /** The names after normalisation, position by position. */
  function Normalized(names: seq<string>): (r: seq<string>)
    ensures |r| == |names| && forall i :: 0 <= i < |names| ==> r[i] == GetOptionName(names[i])
  {
    seq(|names|, i requires 0 <= i < |names| => GetOptionName(names[i]))
  }

  /** Whether a (space-trimmed) token is wrapped in double quotes at both ends. */
  predicate Quoted(t: string) {
    |t| > 0 && t[0] == '"' && t[|t| - 1] == '"'
  }

  /**
   * `trimArg`: trims white space, then, only when the result starts AND ends
   * with a double quote, drops the leading quote and then a trailing quote
   * if one is left. A token quoted at one end only is not touched.
   */
  function TrimArg(arg: string): (r: String)
    ensures var t := TrimSpace(arg);
      && (Quoted(t) ==> t == "\"" + r.raw + "\"" || (t == "\"" && r.raw == ""))
      && (!Quoted(t) ==> r.raw == t)
  {
    var t := TrimSpace(arg);
    if |t| > 0 && t[0] == '"' && t[|t| - 1] == '"' then
      var u := t[1..];
      if |u| > 0 && u[|u| - 1] == '"' then String(u[..|u| - 1]) else String(u)
    else String(t)
  }

  /** Quoting round trip: any text wrapped in double quotes and white space comes back as it was. */
  lemma {:induction false} TrimArgUnquotes(front: string, s: string, back: string)
    requires AllSpace(front) && AllSpace(back)
    ensures TrimArg(front + "\"" + s + "\"" + back) == String(s)
  {
    var core := "\"" + s + "\"";
    assert front + "\"" + s + "\"" + back == front + core + back;
    assert !IsSpace('"');
    TrimSpacePadded(front, core, back);
    assert Quoted(core);
    var u := core[1..];
    assert u == s + "\"" && u[|u| - 1] == '"';
    assert u[..|u| - 1] == s;
  }

  /** A value that neither starts nor ends with a space or a double quote is kept as it is, padding aside. */
  lemma {:induction false} TrimArgPlain(front: string, s: string, back: string)
    requires AllSpace(front) && AllSpace(back)
    requires s != [] ==> !IsSpace(s[0]) && !IsSpace(s[|s| - 1]) && s[0] != '"'
    ensures TrimArg(front + s + back) == String(s)
  {
    TrimSpacePadded(front, s, back);
  }

  /** Quoted on the left only: the token is only space-trimmed. */
  lemma {:induction false} TrimArgHalfQuoted()
    ensures TrimArg(" \"unterminated") == String("\"unterminated")
  {
    var t := "\"unterminated";
    TrimSpacePadded(" ", t, "");
    assert " " + t + "" == " \"unterminated";
    assert !Quoted(t);
  }

  /** Single quotes are not quotes to `trimArg`. */
  lemma {:induction false} TrimArgSingleQuotes()
    ensures TrimArg("'kept' ") == String("'kept'")
  {
    TrimArgPlain("", "'kept'", " ");
    assert "" + "'kept'" + " " == "'kept' ";
  }

  /** A lone double quote is both the opening and the closing quote: nothing is left. */
  lemma {:induction false} TrimArgLoneQuote()
    ensures TrimArg(" \" ") == String("")
  {
    TrimSpacePadded(" ", "\"", " ");
    assert " " + "\"" + " " == " \" ";
  }
}
