/** Identifiers and instance names: internal/types/id.go, the naming half of internal/instances/repo.go
    and web/src/lib/instance.ts. */
module Names {
  import opened Wrappers
  import opened Text

  predicate IsId(n: int) {
    INT64_MIN <= n <= INT64_MAX
  }

  // ---------- 64-bit identifiers as JSON strings ----------

  function MarshalId(id: int): string {
    "\"" + FormatInt(id) + "\""
  }

  /** A JSON string body that decodes to itself. */
  predicate PlainJson(s: string) {
    forall c | c in s :: ' ' <= c <= '~' && c != '"' && c != '\\'
  }

  /** What is used of encoding/json: a quoted plain body decodes to that body. Escapes stay the decoder's business. */
  ghost predicate DecodesPlainStrings(decode: string -> Option<string>) {
    forall s: string | PlainJson(s) :: decode("\"" + s + "\"") == Some(s)
  }

  function UnmarshalId(data: string, decode: string -> Option<string>): Option<int> {
    if |data| >= 2 && data[0] == '"' && data[|data| - 1] == '"' then
      match decode(data)
      case None => None
      case Some(raw) => ParseInt(raw)
    else ParseInt(data)
  }

  /** Every 64-bit identifier survives the trip through JSON, as the string this program writes and as a bare number. */
  lemma IdRoundTrip(id: int, decode: string -> Option<string>)
    requires IsId(id) && DecodesPlainStrings(decode)
    ensures UnmarshalId(MarshalId(id), decode) == Some(id)
    ensures UnmarshalId(FormatInt(id), decode) == Some(id)
  {
    ParseFormat(id);
    var body := FormatInt(id);
    assert body[0] == '-' || IsDigit(body[0]);
    assert forall c | c in body :: c == '-' || IsDigit(c);
    assert PlainJson(body);
  }

  /** An identifier is written as its number in double quotes; a bare number is read as it is. */
  lemma IdText(id: int, data: string, decode: string -> Option<string>)
    requires IsId(id) && (|data| < 2 || data[0] != '"')
    ensures MarshalId(id) == ['"'] + FormatInt(id) + ['"']
    ensures UnmarshalId(data, decode) == ParseInt(data)
  {
  }

  // ---------- instance names ----------

  function OwnerPrefix(owner: int): string {
    "u" + FormatInt(owner) + "-"
  }

  function PrefixedName(owner: int, displayName: string): string {
    OwnerPrefix(owner) + displayName
  }

  /** The name of an instance: "u", the owner's identifier, a dash and the display name. */
  lemma PrefixedNameText(owner: nat, displayName: string)
    ensures PrefixedName(owner, displayName) == ['u'] + Digits(owner) + ['-'] + displayName
  {
  }

  /** strings.TrimPrefix with the owner's prefix. */
  function StripPrefix(owner: int, name: string): string {
    if OwnerPrefix(owner) <= name then name[|OwnerPrefix(owner)|..] else name
  }

  datatype User = User(id: string, admin: bool)

  /** displayInstanceName of the browser client; `None` is a visitor who is not signed in. */
  function DisplayInstanceName(me: Option<User>, actual: string): string {
    match me
    case None => actual
    case Some(user) =>
      if user.admin then actual else
      var prefix := "u" + user.id + "-";
      if prefix <= actual then actual[|prefix|..] else actual
  }

  /** Both inverses recover the display name, and only a visitor or an administrator sees the prefix. */
  lemma StrippingInvertsPrefixing(owner: int, displayName: string, me: Option<User>)
    requires me.Some? && !me.value.admin ==> me.value.id == FormatInt(owner)
    ensures StripPrefix(owner, PrefixedName(owner, displayName)) == displayName
    ensures DisplayInstanceName(me, PrefixedName(owner, displayName)) == displayName <==> me.Some? && !me.value.admin
  {
    var name := PrefixedName(owner, displayName);
    assert name[|OwnerPrefix(owner)|..] == displayName;
    assert |name| > |displayName|;
  }

  /** A name without the owner's prefix is shown as it is, to everyone. */
  lemma OtherNamesStay(owner: int, name: string, me: Option<User>)
    requires !("u" + FormatInt(owner) + "-" <= name)
    requires me.Some? && !me.value.admin ==> me.value.id == FormatInt(owner)
    ensures StripPrefix(owner, name) == name && DisplayInstanceName(me, name) == name
  {
  }

  /** A run of digits closed by a dash can be read back off the front of a name. */
  lemma DashEndsDigits(a: string, x: string)
    requires AllDigits(a)
    ensures Split(a + "-" + x, '-')[0] == a
    ensures (a + "-" + x)[|a| + 1..] == x
  {
    SplitConcat(a, '-', x);
    SplitWhole(a, '-');
  }

  /** The text that follows the "u" of a name: its sign, and the digits and display name after the sign. */
  lemma NameTail(owner: int, displayName: string)
    ensures var m := if owner < 0 then -owner else owner;
            var name := PrefixedName(owner, displayName);
            |name| > 2 && (name[1] == '-' <==> owner < 0) &&
            name[if owner < 0 then 2 else 1..] == Digits(m) + "-" + displayName
  {
    var m := if owner < 0 then -owner else owner;
    assert IsDigit(Digits(m)[0]);
    assert PrefixedName(owner, displayName) ==
           (if owner < 0 then "u-" else "u") + (Digits(m) + "-" + displayName);
  }

  /** No two (owner, display name) pairs share a name: not even when a display name looks like part of a prefix. */
  lemma PrefixedNameInjective(owner1: int, display1: string, owner2: int, display2: string)
    requires PrefixedName(owner1, display1) == PrefixedName(owner2, display2)
    ensures owner1 == owner2 && display1 == display2
  {
    var m := if owner1 < 0 then -owner1 else owner1;
    var n := if owner2 < 0 then -owner2 else owner2;
    NameTail(owner1, display1);
    NameTail(owner2, display2);
    DashEndsDigits(Digits(m), display1);
    DashEndsDigits(Digits(n), display2);
    DigitsInjective(m, n);
  }
}
