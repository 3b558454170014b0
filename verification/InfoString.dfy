/** rpbs/rpbs.go: the string whose hash the signature check turns into a curve point. */
module InfoString {
  import opened Text

  /** The amount is a pointer to a big integer; the printer writes a missing one as <nil>. */
  datatype Message = Message(wallet: seq<Byte>, slot: nat, amount: Option<int>, transaction: seq<Byte>)

  function PrintAmount(amount: Option<int>): string {
    match amount
    case None => "<nil>"
    case Some(v) => DecimalInt(v)
  }

  /** The amount is printed in base ten, with a sign when it is negative, and reads back as itself. */
  lemma AmountIsDecimal(v: int)
    ensures v >= 0 ==> PrintAmount(Some(v)) == Decimal(v)
    ensures v < 0 ==> PrintAmount(Some(v)) == "-" + Decimal(-v)
    ensures ParseInt(PrintAmount(Some(v))) == Some(v)
    ensures PrintAmount(None) == "<nil>"
  {
    DecimalIntRoundTrip(v);
  }

  function LowerChar(c: char): char {
    if 'A' <= c <= 'Z' then c - 'A' + 'a' else c
  }

  function ToLower(s: string): string {
    seq(|s|, i requires 0 <= i < |s| => LowerChar(s[i]))
  }

  /** The printed message before lower-casing. The wallet printer may use either case for its hex letters. */
  function Info(m: Message, wallet: string): string {
    "BuilderWalletAddress:" + wallet + ",Slot:" + Decimal(m.slot) + ",Amount:" + PrintAmount(m.amount)
      + ",Transaction:0x" + Hex(m.transaction)
  }

  /** The wallet printer is any one whose output lower-cases to 0x and the hex of the address. */
  ghost predicate PrintsWallet(wallet: string, m: Message) {
    ToLower(wallet) == "0x" + Hex(m.wallet)
  }

  function Canonical(m: Message): string {
    "builderwalletaddress:0x" + Hex(m.wallet)
      + [','] + ("slot:" + Decimal(m.slot)
      + [','] + ("amount:" + PrintAmount(m.amount)
      + [','] + ("transaction:0x" + Hex(m.transaction))))
  }

  lemma LowerAppends(a: string, b: string)
    ensures ToLower(a + b) == ToLower(a) + ToLower(b)
  {
  }

  ghost predicate IsLower(s: string) {
    forall i :: 0 <= i < |s| ==> !('A' <= s[i] <= 'Z')
  }

  lemma LowerIsIdentity(s: string)
    requires IsLower(s)
    ensures ToLower(s) == s
  {
  }

  lemma FieldsAreLower(m: Message)
    ensures IsLower(Hex(m.transaction)) && IsLower(Decimal(m.slot)) && IsLower(PrintAmount(m.amount))
  {
    HexDigits(m.transaction);
    DecimalRoundTrip(m.slot);
    if m.amount.Some? {
      DecimalIntRoundTrip(m.amount.value);
    }
  }

  /** Lower-casing goes field by field. */
  lemma LowerFields(w: string, d: string, v: string, t: string)
    ensures ToLower("BuilderWalletAddress:" + w + ",Slot:" + d + ",Amount:" + v + ",Transaction:0x" + t)
         == ToLower("BuilderWalletAddress:") + ToLower(w) + ToLower(",Slot:") + ToLower(d)
            + ToLower(",Amount:") + ToLower(v) + ToLower(",Transaction:0x") + ToLower(t)
  {
    var s0, s1, s2, s3 := "BuilderWalletAddress:", ",Slot:", ",Amount:", ",Transaction:0x";
    LowerAppends(s0, w);
    LowerAppends(s0 + w, s1);
    LowerAppends(s0 + w + s1, d);
    LowerAppends(s0 + w + s1 + d, s2);
    LowerAppends(s0 + w + s1 + d + s2, v);
    LowerAppends(s0 + w + s1 + d + s2 + v, s3);
    LowerAppends(s0 + w + s1 + d + s2 + v + s3, t);
  }

  lemma LongLabelsLower()
    ensures ToLower("BuilderWalletAddress:") == "builderwalletaddress:" && ToLower(",Transaction:0x") == ",transaction:0x"
  {
  }

  lemma LabelsLower()
    ensures ToLower("BuilderWalletAddress:") == "builderwalletaddress:" && ToLower(",Slot:") == ",slot:"
    ensures ToLower(",Amount:") == ",amount:" && ToLower(",Transaction:0x") == ",transaction:0x"
  {
    LongLabelsLower();
  }

  /** What reaches the signature check, whatever case the wallet was printed in. */
  lemma InfoLowersToCanonical(m: Message, wallet: string)
    requires PrintsWallet(wallet, m)
    ensures ToLower(Info(m, wallet)) == Canonical(m)
    ensures ToLower(Info(m, wallet)) == "builderwalletaddress:" + ("0x" + Hex(m.wallet)) + ",slot:" + Decimal(m.slot)
      + ",amount:" + PrintAmount(m.amount) + ",transaction:0x" + Hex(m.transaction)
  {
    var d, v, t := Decimal(m.slot), PrintAmount(m.amount), Hex(m.transaction);
    FieldsAreLower(m);
    LowerFields(wallet, d, v, t);
    LabelsLower();
    LowerIsIdentity(d);
    LowerIsIdentity(v);
    LowerIsIdentity(t);
    Regroup(Hex(m.wallet), d, v, t);
  }

  lemma Regroup(w: string, d: string, v: string, t: string)
    ensures "builderwalletaddress:" + ("0x" + w) + ",slot:" + d + ",amount:" + v + ",transaction:0x" + t
         == "builderwalletaddress:0x" + w + [','] + ("slot:" + d + [','] + ("amount:" + v + [','] + ("transaction:0x" + t)))
  {
  }

  lemma NoCommas(m: Message)
    ensures Lacks("builderwalletaddress:0x" + Hex(m.wallet), ',')
    ensures Lacks("slot:" + Decimal(m.slot), ',')
    ensures Lacks("amount:" + PrintAmount(m.amount), ',')
  {
    HexDigits(m.wallet);
    DecimalRoundTrip(m.slot);
    if m.amount.Some? {
      DecimalIntRoundTrip(m.amount.value);
    }
  }

  lemma PrefixCancels(prefix: string, a: string, b: string)
    requires prefix + a == prefix + b
    ensures a == b
  {
    assert (prefix + a)[|prefix|..] == a && (prefix + b)[|prefix|..] == b;
  }

  lemma AmountInjective(a: Option<int>, b: Option<int>)
    requires PrintAmount(a) == PrintAmount(b)
    ensures a == b
  {
    if a.Some? {
      DecimalIntRoundTrip(a.value);
    }
    if b.Some? {
      DecimalIntRoundTrip(b.value);
    }
    assert "<nil>"[0] == '<';
  }

  /** Equal strings come from equal messages, so one signature never covers two bids. */
  lemma InfoInjective(m: Message, n: Message, walletM: string, walletN: string)
    requires PrintsWallet(walletM, m) && PrintsWallet(walletN, n)
    requires ToLower(Info(m, walletM)) == ToLower(Info(n, walletN))
    ensures m == n
  {
    InfoLowersToCanonical(m, walletM);
    InfoLowersToCanonical(n, walletN);
    NoCommas(m);
    NoCommas(n);
    var tm, tn := "transaction:0x" + Hex(m.transaction), "transaction:0x" + Hex(n.transaction);
    var am, an := "amount:" + PrintAmount(m.amount), "amount:" + PrintAmount(n.amount);
    var sm, sn := "slot:" + Decimal(m.slot), "slot:" + Decimal(n.slot);
    var wm, wn := "builderwalletaddress:0x" + Hex(m.wallet), "builderwalletaddress:0x" + Hex(n.wallet);
    SplitAtFirst(wm, ',', sm + [','] + (am + [','] + tm), wn, sn + [','] + (an + [','] + tn));
    SplitAtFirst(sm, ',', am + [','] + tm, sn, an + [','] + tn);
    SplitAtFirst(am, ',', tm, an, tn);
    PrefixCancels("builderwalletaddress:0x", Hex(m.wallet), Hex(n.wallet));
    PrefixCancels("slot:", Decimal(m.slot), Decimal(n.slot));
    PrefixCancels("amount:", PrintAmount(m.amount), PrintAmount(n.amount));
    PrefixCancels("transaction:0x", Hex(m.transaction), Hex(n.transaction));
    HexRoundTrip(m.wallet);
    HexRoundTrip(n.wallet);
    HexRoundTrip(m.transaction);
    HexRoundTrip(n.transaction);
    DecimalRoundTrip(m.slot);
    DecimalRoundTrip(n.slot);
    AmountInjective(m.amount, n.amount);
  }
}
