/** The pure fragments of modules/diagnostic.py: the report file name, the clean-up of
    the PRETTY_NAME line of /etc/os-release, the port status words, and the rule that
    lets a detected machine type override the configured one. */
module Diagnostic {
  import opened Text

  // ---------------------------------------------------------------------------
  // save_report_json: the file name

  /** One character of the comprehension `c if c.isalnum() else "_"`. */
  function SafeChar(c: char): char {
    if IsAlnum(c) then c else '_'
  }

  /** "".join(c if c.isalnum() else "_" for c in name). */
  function SafeName(name: string): (r: string)
    ensures |r| == |name|
    ensures forall k :: 0 <= k < |r| ==> (IsAlnum(name[k]) ==> r[k] == name[k])
    ensures forall k :: 0 <= k < |r| ==> (!IsAlnum(name[k]) ==> r[k] == '_')
    ensures forall k :: 0 <= k < |r| ==> IsAlnum(r[k]) || r[k] == '_'
  {
    if |name| == 0 then "" else [SafeChar(name[0])] + SafeName(name[1..])
  }

  /** A name already made of letters, digits and underscores is left unchanged, so
      sanitising twice is sanitising once. */
  lemma SafeNameIdempotent(name: string)
    ensures SafeName(SafeName(name)) == SafeName(name)
  {
    var once := SafeName(name);
    var twice := SafeName(once);
    assert forall k :: 0 <= k < |twice| ==> twice[k] == once[k];
  }

  /** Names that differ only in characters other than letters and digits share a
      file name. */
  lemma SafeNameCollides(a: string, b: string)
    requires |a| == |b|
    requires forall k :: 0 <= k < |a| ==> (IsAlnum(a[k]) || IsAlnum(b[k]) ==> a[k] == b[k])
    ensures SafeName(a) == SafeName(b)
  {
    assert forall k :: 0 <= k < |a| ==> SafeName(a)[k] == SafeName(b)[k];
  }

  /** f"diag_{safe_name}_{timestamp}.json"; the timestamp is the caller's
      strftime("%Y%m%d_%H%M%S") of the current time. */
  function ReportFileName(machineName: string, timestamp: string): (r: string)
    ensures |r| == |machineName| + |timestamp| + 11
    ensures r[..5] == "diag_" && r[|r| - 5..] == ".json"
    ensures r[5..5 + |machineName|] == SafeName(machineName)
    ensures r[5 + |machineName|] == '_' && r[6 + |machineName|..|r| - 5] == timestamp
  {
    var r := "diag_" + SafeName(machineName) + "_" + timestamp + ".json";
    assert r[5..5 + |machineName|] == SafeName(machineName);
    assert r[6 + |machineName|..|r| - 5] == timestamp;
    r
  }

  /** With a timestamp of digits and underscores, the file name holds no path
      separator and no dot except that of ".json": it cannot leave the logs directory. */
  lemma ReportFileNameStaysInLogs(machineName: string, timestamp: string)
    requires forall k :: 0 <= k < |timestamp| ==> IsDigit(timestamp[k]) || timestamp[k] == '_'
    ensures var r := ReportFileName(machineName, timestamp);
            '/' !in r && '\\' !in r &&
            forall k :: 0 <= k < |r| && r[k] == '.' ==> k == |r| - 5
  {
    var r := ReportFileName(machineName, timestamp);
    var safe := SafeName(machineName);
    assert r == "diag_" + safe + "_" + timestamp + ".json";
    forall k | 0 <= k < |r|
      ensures r[k] != '/' && r[k] != '\\' && (r[k] == '.' ==> k == |r| - 5)
    {
      if k < 5 {
        assert r[k] == "diag_"[k];
      } else if k < 5 + |safe| {
        assert r[k] == safe[k - 5];
      } else if k == 5 + |safe| {
        assert r[k] == '_';
      } else if k < 6 + |safe| + |timestamp| {
        assert r[k] == timestamp[k - 6 - |safe|];
      } else {
        assert r[k] == ".json"[k - 6 - |safe| - |timestamp|];
      }
    }
  }

  // ---------------------------------------------------------------------------
  // get_remote_linux_health: the OS name

  const PrettyNameKey := "PRETTY_NAME="
  const LinuxUnknown := "Linux inconnu"

  /** .replace('PRETTY_NAME=', ''). */
  function DropKey(s: string): string {
    Replace(s, PrettyNameKey, "")
  }

  /** .replace('"', ''): no quote is left. */
  function DropQuotes(s: string): (r: string)
    ensures '"' !in r
  {
    ReplaceCharRemoves(s, '"', "");
    Replace(s, "\"", "")
  }

  /** out.strip().replace('PRETTY_NAME=', '').replace('"', ''), then the fallback
      `os_name if os_name else "Linux inconnu"`; `out` is the decoded output of
      `cat /etc/os-release | grep PRETTY_NAME`. */
  function CleanOsName(out: string): (r: string)
    ensures DropQuotes(DropKey(Strip(out))) != "" ==> r == DropQuotes(DropKey(Strip(out)))
    ensures DropQuotes(DropKey(Strip(out))) == "" ==> r == LinuxUnknown
    ensures r != "" && '"' !in r
  {
    var cleaned := DropQuotes(DropKey(Strip(out)));
    FallbackIsPlain();
    if cleaned != "" then cleaned else LinuxUnknown
  }

  lemma FallbackIsPlain()
    ensures LinuxUnknown != "" && '"' !in LinuxUnknown
  {
    assert LinuxUnknown[0] == 'L';
  }

  /** The usual line PRETTY_NAME="<name>" followed by a newline gives back <name>,
      for any name without quotes and without the key inside it. */
  lemma CleanOsNameOfLine(name: string)
    requires name != "" && '"' !in name && !Occurs(PrettyNameKey, name)
    ensures CleanOsName(PrettyNameKey + "\"" + name + "\"\n") == name
  {
    var quoted := "\"" + name + "\"";
    var stripped := PrettyNameKey + quoted;
    assert PrettyNameKey + "\"" + name + "\"\n" == stripped + "\n";
    StripLine(stripped);
    KeyRemoved(quoted);
    NoKeyInQuoted(name);
    ReplaceAbsent(quoted, PrettyNameKey, "");
    RemoveQuotes(name);
  }

  /** The key at the front of a string is replaced by nothing. */
  lemma KeyRemoved(rest: string)
    ensures Replace(PrettyNameKey + rest, PrettyNameKey, "") == Replace(rest, PrettyNameKey, "")
  {
    var s := PrettyNameKey + rest;
    assert s[..|PrettyNameKey|] == PrettyNameKey;
    assert s[|PrettyNameKey|..] == rest;
  }

  /** Stripping a string that starts with a letter, and ends with a quote and a newline,
      removes only the newline. */
  lemma StripLine(s: string)
    requires |s| > 0 && s[0] == 'P' && s[|s| - 1] == '"'
    ensures Strip(s + "\n") == s
  {
    var t := s + "\n";
    assert StripLeft(t) == t;
    assert t[..|t| - 1] == s;
    assert StripRight(t) == StripRight(s);
  }

  lemma NoKeyInQuoted(name: string)
    requires !Occurs(PrettyNameKey, name)
    ensures !Occurs(PrettyNameKey, "\"" + name + "\"")
  {
    var q := "\"" + name + "\"";
    if Occurs(PrettyNameKey, q) {
      assert q[..|PrettyNameKey|] != PrettyNameKey by {
        assert q[0] == '"' && PrettyNameKey[0] == 'P';
      }
      assert q[1..] == name + "\"";
      OccursAppend(PrettyNameKey, name, '"');
    }
  }

  lemma RemoveQuotes(name: string)
    requires '"' !in name
    ensures Replace("\"" + name + "\"", "\"", "") == name
  {
    var q := "\"" + name + "\"";
    assert q[..1] == "\"";
    assert q[1..] == name + "\"";
    RemoveQuoteTail(name);
  }

  lemma {:induction false} RemoveQuoteTail(name: string)
    requires '"' !in name
    ensures Replace(name + "\"", "\"", "") == name
  {
    var t := name + "\"";
    if |name| == 0 {
      assert t == "\"";
      assert t[1..] == "";
    } else {
      assert t[..1] == [name[0]] && name[0] != '"';
      assert t[1..] == name[1..] + "\"";
      assert '"' !in name[1..] by {
        forall k | 0 <= k < |name[1..]| ensures name[1..][k] != '"' { assert name[1..][k] == name[k + 1]; }
      }
      RemoveQuoteTail(name[1..]);
      assert [name[0]] + name[1..] == name;
    }
  }

  /** An empty answer, or the key with an empty quoted value, falls back to
      "Linux inconnu". */
  lemma CleanOsNameFallback()
    ensures CleanOsName("") == LinuxUnknown
    ensures CleanOsName(PrettyNameKey + "\"\"") == LinuxUnknown
  {
    assert DropQuotes(DropKey(Strip(""))) == "";
    var s := PrettyNameKey + "\"\"";
    assert StripLeft(s) == s;
    assert s[..|s| - 1] == PrettyNameKey + "\"";
    assert Strip(s) == s;
    KeyRemoved("\"\"");
    assert Replace("\"\"", PrettyNameKey, "") == "\"\"";
    RemoveQuotes("");
  }

  // ---------------------------------------------------------------------------
  // check_simple_ports and run_diagnostic

  /** "OUVERT" if connect_ex returned 0, else "FERMÉ". */
  function PortStatus(code: int): (r: string)
    ensures r == "OUVERT" <==> code == 0
    ensures r == "FERMÉ" <==> code != 0
  {
    if code == 0 then "OUVERT" else "FERMÉ"
  }

  /** The machine type used for the scan: the configured type, unless it is not
      "local" and detection found something other than "unknown". */
  function EffectiveType(configured: string, detected: string): (r: string)
    ensures configured == "local" || detected == "unknown" ==> r == configured
    ensures configured != "local" && detected != "unknown" ==> r == detected
    ensures r == configured || r == detected
  {
    if configured != "local" && detected != "unknown" then detected else configured
  }

  /** Two return codes give the same port status exactly when both or neither are 0:
      the status tells an open port from a closed one and nothing more. */
  lemma PortStatusTellsOpen(a: int, b: int)
    ensures PortStatus(a) == PortStatus(b) <==> (a == 0 <==> b == 0)
  {
  }

  /** The scan never runs with type "unknown" unless that was the configured type. */
  lemma EffectiveTypeKnown(configured: string, detected: string)
    ensures EffectiveType(configured, detected) == "unknown" ==> configured == "unknown"
  {
  }

  /** Applying the override a second time with the same detection changes nothing. */
  lemma EffectiveTypeIdempotent(configured: string, detected: string)
    ensures EffectiveType(EffectiveType(configured, detected), detected) == EffectiveType(configured, detected)
  {
  }
}
