/**
 * The credential wire format: `key SEP ssid SEP password`, and the
 * single-write input characteristic that applies one such message per write.
 * Applying credentials (`set_wifi`, which rewrites the supplicant
 * configuration and restarts the supplicant) is an effect outside this
 * model; here it is the `WifiCredentials` value handed to it.
 */
module Credentials {
  import opened Wrappers
  import opened Text
  import opened Utf8

  /** Field separator of a credential message. */
  const SEP: string := "%&%"
  /** Terminator of a segmented credential message. */
  const END: string := "&#&"

  /** The arguments of one `set_wifi(ssid, password)` call. */
  datatype WifiCredentials = WifiCredentials(ssid: string, password: string)

  /**
   * `parse_and_set_wifi(msg)`: the `set_wifi` call it makes, if any. It makes
   * one exactly when the message has three fields; the first (the key) is
   * dropped.
   */
  function ParseAndSetWifi(msg: string): (r: Option<WifiCredentials>)
    ensures r.Some? <==> |Split(msg, SEP)| == 3
    ensures r.Some? ==> msg == Split(msg, SEP)[0] + SEP + r.value.ssid + SEP + r.value.password
    ensures r.Some? ==> !Contains(r.value.ssid, SEP) && !Contains(r.value.password, SEP)
    ensures r.Some? ==> Clean(Split(msg, SEP)[0], SEP) && Clean(r.value.ssid, SEP)
  {
    var configs := Split(msg, SEP);
    if |configs| != 3 then None
    else
      JoinThree(configs, SEP);
      Some(WifiCredentials(configs[1], configs[2]))
  }

  /**
   * A field may precede `SEP` without confusing the split exactly when it
   * holds no `SEP` and does not end in `%&` (which would complete a `SEP`
   * one character early).
   */
  lemma CleanForSep(f: string)
    ensures Clean(f, SEP) <==> !Contains(f, SEP) && !EndsWith(f, "%&")
  {
    if Contains(f, SEP) {
      var j: nat :| j <= |f| && OccursAt(f, SEP, j);
      assert (f + SEP)[j..j + 3] == f[j..j + 3];
      EarlySepNotClean(f, j);
    } else if EndsWith(f, "%&") {
      var n := |f|;
      assert (f + SEP)[n - 2..n + 1] == SEP by {
        assert f[n - 2..][0] == '%' && f[n - 2..][1] == '&';
      }
      EarlySepNotClean(f, n - 2);
    } else {
      FreeFieldIsClean(f);
    }
  }

  /** A `SEP` in `f + SEP` that starts inside `f` is found first. */
  lemma {:induction false} EarlySepNotClean(f: string, j: nat)
    requires j < |f| && OccursAt(f + SEP, SEP, j)
    ensures !Clean(f, SEP)
  {
  }

  lemma {:induction false} FreeFieldIsClean(f: string)
    requires !Contains(f, SEP) && !EndsWith(f, "%&")
    ensures Clean(f, SEP)
  {
    var s := f + SEP;
    var n := |f|;
    assert OccursAt(s, SEP, n) by { assert s[n..n + 3] == SEP; }
    forall j: nat | j < n
      ensures !OccursAt(s, SEP, j)
    {
      if j + 3 <= n {
        assert f[j..j + 3] == s[j..j + 3];
        assert !OccursAt(f, SEP, j);
      } else if j == n - 1 {
        assert j + 3 <= |s| && s[j..j + 3][1] == s[n] == '%';
      } else {
        assert j == n - 2 && f[n - 2..] != "%&";
        assert j + 3 <= |s| && s[j..j + 3][..2] == f[n - 2..];
      }
    }
    FirstFound(s, SEP, n);
  }

  /** A well-formed message applies its own ssid and password. */
  lemma ParseWellFormed(key: string, ssid: string, password: string)
    requires Clean(key, SEP) && Clean(ssid, SEP) && !Contains(password, SEP)
    ensures ParseAndSetWifi(key + SEP + ssid + SEP + password) == Some(WifiCredentials(ssid, password))
  {
    var tail := ssid + SEP + password;
    assert key + SEP + ssid + SEP + password == key + SEP + tail;
    assert Split(tail, SEP) == [ssid, password] by {
      SplitCons(ssid, SEP, password);
      SplitFree(password, SEP);
    }
    assert Split(key + SEP + tail, SEP) == [key, ssid, password] by {
      SplitCons(key, SEP, tail);
    }
  }

  /** The key field is never looked at: any clean key gives the same call. */
  lemma KeyIgnored(key1: string, key2: string, rest: string)
    requires Clean(key1, SEP) && Clean(key2, SEP)
    ensures ParseAndSetWifi(key1 + SEP + rest) == ParseAndSetWifi(key2 + SEP + rest)
  {
    SplitCons(key1, SEP, rest);
    SplitCons(key2, SEP, rest);
  }

  /**
   * Keeping `SEP` out of the ssid is not enough for it to arrive intact:
   * an ssid ending in `%&` is cut short and the rest moves to the password.
   */
  lemma SsidFreeOfSepIsNotEnough()
    ensures var ssid := "a%&";
      && !Contains(ssid, SEP)
      && ParseAndSetWifi("k" + SEP + ssid + SEP + "p") == Some(WifiCredentials("a", "&%p"))
  {
    var ssid := "a%&";
    assert !Contains(ssid, SEP) by { NotSepAt0(ssid); }
    assert !Contains("&%p", SEP) by { NotSepAt0("&%p"); }
    ShortClean("k");
    ShortClean("a");
    assert "k" + SEP + ssid + SEP + "p" == "k" + SEP + "a" + SEP + "&%p";
    ParseWellFormed("k", "a", "&%p");
  }

  /** A field of at most one character can always precede `SEP`. */
  lemma {:induction false} ShortClean(f: string)
    requires |f| <= 1
    ensures Clean(f, SEP)
  {
    CleanForSep(f);
  }

  /** A three-character string other than `SEP` holds no `SEP`. */
  lemma {:induction false} NotSepAt0(s: string)
    requires |s| == 3 && s != SEP
    ensures !Contains(s, SEP)
  {
    forall j: nat | j <= |s|
      ensures !OccursAt(s, SEP, j)
    {
      if j == 0 { assert s[0..3] == s; }
    }
  }

  /**
   * `InputChrc.WriteValue`: one write carries one whole message. Text that
   * is not UTF-8 is dropped; otherwise the write is `parse_and_set_wifi`
   * of the decoded text. Nothing is kept between writes.
   */
  function InputWriteValue(value: seq<byte>): (r: Option<WifiCredentials>)
    ensures Decode(value).None? ==> r.None?
    ensures Decode(value).Some? ==> Encode(Decode(value).value) == value && r == ParseAndSetWifi(Decode(value).value)
  {
    match Decode(value)
    case None => None
    case Some(msg) =>
      EncodeDecode(value);
      ParseAndSetWifi(msg)
  }

  /** A client that encodes a well-formed message in UTF-8 gets its credentials applied. */
  lemma InputWriteWellFormed(key: string, ssid: string, password: string)
    requires Clean(key, SEP) && Clean(ssid, SEP) && !Contains(password, SEP)
    ensures InputWriteValue(Encode(key + SEP + ssid + SEP + password)) == Some(WifiCredentials(ssid, password))
  {
    DecodeEncode(key + SEP + ssid + SEP + password);
    ParseWellFormed(key, ssid, password);
  }

  /** Every applied write was the UTF-8 encoding of some `key SEP ssid SEP password`. */
  lemma InputWriteOnlyWellFormed(value: seq<byte>)
    requires InputWriteValue(value).Some?
    ensures var c := InputWriteValue(value).value;
      exists key: string :: value == Encode(key + SEP + c.ssid + SEP + c.password)
  {
    var c := InputWriteValue(value).value;
    var msg := Decode(value).value;
    var key := Split(msg, SEP)[0];
    assert value == Encode(key + SEP + c.ssid + SEP + c.password);
  }
}
