/**
  The service messages of `Log.ServiceMessages`: the lines that report a
  package found in the package cache and the data needed to verify a delta
  (differential) package transfer. Both are written in the verbose mode,
  with every value Base64-encoded.
 */
module ServiceMessages {
  import opened Wrappers
  import Base64
  import Decimal
  import ServiceMessageLine
  import Logger

  /** `##octopus[calamari-found-package]`: written when an exact match of the package already exists. */
  const FoundPackageMarker: string := ServiceMessageLine.Format(ServiceMessageLine.Message("calamari-found-package", []))

  /** The `foundPackage` message with its four values as written (already encoded). */
  function FoundPackageMessage(id: string, version: string, hash: string, remotePath: string): ServiceMessageLine.Message
  {
    ServiceMessageLine.Message("foundPackage", [
      ServiceMessageLine.Attribute("id", id), ServiceMessageLine.Attribute("version", version),
      ServiceMessageLine.Attribute("hash", hash), ServiceMessageLine.Attribute("remotePath", remotePath)])
  }

  /** `##octopus[foundPackage id="…" version="…" hash="…" remotePath="…"]`. */
  function FoundPackageLine(codePage: string -> seq<Base64.byte>, packageId: string, packageVersion: string,
                            packageHash: string, packageFullPath: string): string
  {
    ServiceMessageLine.Format(FoundPackageMessage(
      Logger.ConvertServiceMessageValue(codePage, packageId), Logger.ConvertServiceMessageValue(codePage, packageVersion),
      Logger.ConvertServiceMessageValue(codePage, packageHash), Logger.ConvertServiceMessageValue(codePage, packageFullPath)))
  }

  /** The calls `PackageFound` makes on the logger. */
  function PackageFoundCalls(codePage: string -> seq<Base64.byte>, packageId: string, packageVersion: string,
                             packageHash: string, packageFullPath: string, exactMatchExists: bool): seq<Logger.Call>
  {
    (if exactMatchExists then [Logger.VerboseCall(FoundPackageMarker)] else [])
      + [Logger.VerboseCall(FoundPackageLine(codePage, packageId, packageVersion, packageHash, packageFullPath))]
  }

  lemma FoundPackageMessageWellFormed(id: string, version: string, hash: string, remotePath: string)
    requires '"' !in id && '"' !in version && '"' !in hash && '"' !in remotePath
    ensures ServiceMessageLine.WellFormed(FoundPackageMessage(id, version, hash, remotePath))
    ensures FoundPackageMessage(id, version, hash, remotePath).name[..7] != "stdout-"
  {
    var attributes := FoundPackageMessage(id, version, hash, remotePath).attributes;
    assert ' ' !in "foundPackage" && "foundPackage"[..7][0] == 'f';
    assert '=' !in "id" && '=' !in "version" && '=' !in "hash" && '=' !in "remotePath";
    forall k | 0 <= k < |attributes|
      ensures '=' !in attributes[k].key && '"' !in attributes[k].value
    {
      if k == 0 { assert attributes[k] == ServiceMessageLine.Attribute("id", id); }
      else if k == 1 { assert attributes[k] == ServiceMessageLine.Attribute("version", version); }
      else if k == 2 { assert attributes[k] == ServiceMessageLine.Attribute("hash", hash); }
      else { assert attributes[k] == ServiceMessageLine.Attribute("remotePath", remotePath); }
    }
  }

  lemma FoundPackageMessageFields(id: string, version: string, hash: string, remotePath: string,
                                  fields: seq<(string, seq<Base64.byte>)>)
    requires |fields| == 4
    requires fields[0].0 == "id" && id == Base64.Encode(fields[0].1)
    requires fields[1].0 == "version" && version == Base64.Encode(fields[1].1)
    requires fields[2].0 == "hash" && hash == Base64.Encode(fields[2].1)
    requires fields[3].0 == "remotePath" && remotePath == Base64.Encode(fields[3].1)
    ensures var attributes := FoundPackageMessage(id, version, hash, remotePath).attributes;
      && |attributes| == |fields|
      && forall k | 0 <= k < |fields| ::
           attributes[k].key == fields[k].0 && attributes[k].value == Base64.Encode(fields[k].1)
  {
    var attributes := FoundPackageMessage(id, version, hash, remotePath).attributes;
    forall k | 0 <= k < |fields|
      ensures attributes[k].key == fields[k].0 && attributes[k].value == Base64.Encode(fields[k].1)
    {
      if k == 0 { assert attributes[k] == ServiceMessageLine.Attribute("id", id); }
      else if k == 1 { assert attributes[k] == ServiceMessageLine.Attribute("version", version); }
      else if k == 2 { assert attributes[k] == ServiceMessageLine.Attribute("hash", hash); }
      else { assert attributes[k] == ServiceMessageLine.Attribute("remotePath", remotePath); }
    }
  }

  lemma FoundPackageMessageCarries(id: string, version: string, hash: string, remotePath: string,
                                   idBytes: seq<Base64.byte>, versionBytes: seq<Base64.byte>,
                                   hashBytes: seq<Base64.byte>, remotePathBytes: seq<Base64.byte>)
    requires '"' !in id && '"' !in version && '"' !in hash && '"' !in remotePath
    requires id == Base64.Encode(idBytes) && version == Base64.Encode(versionBytes)
    requires hash == Base64.Encode(hashBytes) && remotePath == Base64.Encode(remotePathBytes)
    ensures var line := ServiceMessageLine.Format(FoundPackageMessage(id, version, hash, remotePath));
      && Logger.Carries(line, "foundPackage",
           [("id", idBytes), ("version", versionBytes), ("hash", hashBytes), ("remotePath", remotePathBytes)])
      && !Logger.IsModeMarker(line)
  {
    var m := FoundPackageMessage(id, version, hash, remotePath);
    var fields := [("id", idBytes), ("version", versionBytes), ("hash", hashBytes), ("remotePath", remotePathBytes)];
    FoundPackageMessageWellFormed(id, version, hash, remotePath);
    FoundPackageMessageFields(id, version, hash, remotePath, fields);
    Logger.FormatCarries(m, fields);
    Logger.NotModeMarker(m);
  }

  lemma FoundPackageKeysAreSingleLine(fields: seq<(string, seq<Base64.byte>)>)
    requires |fields| == 4
    requires fields[0].0 == "id" && fields[1].0 == "version" && fields[2].0 == "hash" && fields[3].0 == "remotePath"
    ensures Logger.SingleLine("foundPackage")
    ensures forall k | 0 <= k < |fields| :: Logger.SingleLine(fields[k].0)
  {
    forall k | 0 <= k < |fields|
      ensures Logger.SingleLine(fields[k].0)
    {
      if k == 0 {
      } else if k == 1 {
      } else if k == 2 {
      } else {
      }
    }
  }

  lemma FoundPackageLineCarries(codePage: string -> seq<Base64.byte>, packageId: string, packageVersion: string,
                                packageHash: string, packageFullPath: string)
    ensures Logger.Carries(FoundPackageLine(codePage, packageId, packageVersion, packageHash, packageFullPath),
      "foundPackage", [("id", codePage(packageId)), ("version", codePage(packageVersion)),
                       ("hash", codePage(packageHash)), ("remotePath", codePage(packageFullPath))])
    ensures !Logger.IsModeMarker(FoundPackageLine(codePage, packageId, packageVersion, packageHash, packageFullPath))
    ensures Logger.SingleLine(FoundPackageLine(codePage, packageId, packageVersion, packageHash, packageFullPath))
  {
    var fields := [("id", codePage(packageId)), ("version", codePage(packageVersion)),
                   ("hash", codePage(packageHash)), ("remotePath", codePage(packageFullPath))];
    FoundPackageMessageCarries(
      Logger.ConvertServiceMessageValue(codePage, packageId), Logger.ConvertServiceMessageValue(codePage, packageVersion),
      Logger.ConvertServiceMessageValue(codePage, packageHash), Logger.ConvertServiceMessageValue(codePage, packageFullPath),
      codePage(packageId), codePage(packageVersion), codePage(packageHash), codePage(packageFullPath));
    FoundPackageKeysAreSingleLine(fields);
    Logger.CarriedLineIsSingleLine(FoundPackageLine(codePage, packageId, packageVersion, packageHash, packageFullPath),
                                   "foundPackage", fields);
  }

  /**
    Reports a package found on the target: in the verbose mode, first
    `##octopus[calamari-found-package]` when an exact match exists, then
    the `foundPackage` line.
   */
  function PackageFound(st: Logger.State, codePage: string -> seq<Base64.byte>, packageId: string,
                        packageVersion: string, packageHash: string, packageFullPath: string,
                        exactMatchExists: bool): (r: Logger.State)
    ensures r.mode == Some(Logger.VerboseMode)
    ensures r.stderr == st.stderr
    ensures r.stdout == st.stdout + Logger.MarkerIfChanged(st, Logger.VerboseMode)
                        + (if exactMatchExists then [FoundPackageMarker] else [])
                        + [FoundPackageLine(codePage, packageId, packageVersion, packageHash, packageFullPath)]
  {
    var s := if exactMatchExists then Logger.Verbose(st, FoundPackageMarker) else st;
    Logger.Verbose(s, FoundPackageLine(codePage, packageId, packageVersion, packageHash, packageFullPath))
  }

  lemma FoundPackageNameIsSingleLine()
    ensures Logger.SingleLine("calamari-found-package")
  {
  }

  lemma FoundPackageMarkerIsSingleLine()
    ensures Logger.SingleLine(FoundPackageMarker)
  {
    var m := ServiceMessageLine.Message("calamari-found-package", []);
    FoundPackageNameIsSingleLine();
    ServiceMessageLine.PrefixHasNoLineBreak();
    ServiceMessageLine.FormatAvoids(m, '\n');
    ServiceMessageLine.FormatAvoids(m, '\r');
  }

  lemma FoundPackageMarkerIsPlain()
    ensures !Logger.IsModeMarker(FoundPackageMarker)
  {
    var m := ServiceMessageLine.Message("calamari-found-package", []);
    assert m.name[..7][0] == 'c';
    Logger.NotModeMarker(m);
  }

  /** `PackageFound` is the sequence of logger calls `PackageFoundCalls`. */
  lemma PackageFoundIsRun(st: Logger.State, codePage: string -> seq<Base64.byte>, packageId: string,
                          packageVersion: string, packageHash: string, packageFullPath: string,
                          exactMatchExists: bool)
    ensures Logger.Run(st, PackageFoundCalls(codePage, packageId, packageVersion, packageHash, packageFullPath, exactMatchExists))
         == PackageFound(st, codePage, packageId, packageVersion, packageHash, packageFullPath, exactMatchExists)
  {
    var line := FoundPackageLine(codePage, packageId, packageVersion, packageHash, packageFullPath);
    var calls := PackageFoundCalls(codePage, packageId, packageVersion, packageHash, packageFullPath, exactMatchExists);
    if exactMatchExists {
      assert calls == [Logger.VerboseCall(FoundPackageMarker), Logger.VerboseCall(line)];
      assert calls[1..] == [Logger.VerboseCall(line)];
      assert calls[1..][1..] == [];
      var s1 := Logger.Apply(st, calls[0]);
      assert Logger.Run(st, calls) == Logger.Run(s1, calls[1..]);
      assert Logger.Run(s1, calls[1..]) == Logger.Run(Logger.Apply(s1, calls[1..][0]), []);
    } else {
      assert calls == [Logger.VerboseCall(line)];
      assert calls[1..] == [];
      assert Logger.Run(st, calls) == Logger.Run(Logger.Apply(st, calls[0]), []);
    }
  }

  /** An optional verbose message followed by a verbose message, read back. */
  lemma OptionalThenVerbose(first: string, line: string, withFirst: bool)
    ensures var calls := (if withFirst then [Logger.VerboseCall(first)] else []) + [Logger.VerboseCall(line)];
      && (forall k | 0 <= k < |calls| :: calls[k].message == first || calls[k].message == line)
      && Logger.Attributed(calls)
        == (if withFirst then [(Some(Logger.VerboseMode), first)] else []) + [(Some(Logger.VerboseMode), line)]
  {
    var calls := (if withFirst then [Logger.VerboseCall(first)] else []) + [Logger.VerboseCall(line)];
    var lineRead := [(Some(Logger.VerboseMode), line)];
    if withFirst {
      assert calls == [Logger.VerboseCall(first), Logger.VerboseCall(line)];
      assert calls[1..] == [Logger.VerboseCall(line)];
      assert calls[1..][1..] == [];
      assert Logger.Attributed(calls[1..]) == lineRead + Logger.Attributed([]);
      assert Logger.Attributed(calls) == [(Some(Logger.VerboseMode), first)] + Logger.Attributed(calls[1..]);
    } else {
      assert calls == [Logger.VerboseCall(line)];
      assert calls[1..] == [];
      assert Logger.Attributed(calls) == lineRead + Logger.Attributed([]);
    }
  }

  /** The two verbose calls are plain messages when both texts are single lines that are not markers. */
  lemma OptionalThenVerbosePlain(first: string, line: string, withFirst: bool)
    requires Logger.SingleLine(first) && !Logger.IsModeMarker(first)
    requires Logger.SingleLine(line) && !Logger.IsModeMarker(line)
    ensures Logger.PlainMessages((if withFirst then [Logger.VerboseCall(first)] else []) + [Logger.VerboseCall(line)])
  {
    OptionalThenVerbose(first, line, withFirst);
  }

  /**
    An orchestrator reading the lines `PackageFound` appends sees, in the
    verbose mode, the found-package marker exactly when an exact match
    exists, and then the `foundPackage` line.
   */
  lemma PackageFoundReadBack(st: Logger.State, codePage: string -> seq<Base64.byte>, packageId: string,
                             packageVersion: string, packageHash: string, packageFullPath: string,
                             exactMatchExists: bool)
    ensures var r := PackageFound(st, codePage, packageId, packageVersion, packageHash, packageFullPath, exactMatchExists);
      && |st.stdout| <= |r.stdout|
      && Logger.Interpret(st.mode, r.stdout[|st.stdout|..])
        == (if exactMatchExists then [(Some(Logger.VerboseMode), FoundPackageMarker)] else [])
           + [(Some(Logger.VerboseMode), FoundPackageLine(codePage, packageId, packageVersion, packageHash, packageFullPath))]
  {
    var calls := PackageFoundCalls(codePage, packageId, packageVersion, packageHash, packageFullPath, exactMatchExists);
    var line := FoundPackageLine(codePage, packageId, packageVersion, packageHash, packageFullPath);
    OptionalThenVerbose(FoundPackageMarker, line, exactMatchExists);
    FoundPackageLineCarries(codePage, packageId, packageVersion, packageHash, packageFullPath);
    FoundPackageMarkerIsPlain();
    FoundPackageMarkerIsSingleLine();
    OptionalThenVerbosePlain(FoundPackageMarker, line, exactMatchExists);
    PackageFoundIsRun(st, codePage, packageId, packageVersion, packageHash, packageFullPath, exactMatchExists);
    Logger.InterpretRun(st, calls);
  }

  /** The `deltaVerification` message with its three values as written (already encoded). */
  function DeltaVerificationMessage(remotePath: string, hash: string, size: string): ServiceMessageLine.Message
  {
    ServiceMessageLine.Message("deltaVerification", [
      ServiceMessageLine.Attribute("remotePath", remotePath), ServiceMessageLine.Attribute("hash", hash),
      ServiceMessageLine.Attribute("size", size)])
  }

  /** `##octopus[deltaVerification remotePath="…" hash="…" size="…"]`, the size rendered in decimal first. */
  function DeltaVerificationLine(codePage: string -> seq<Base64.byte>, remotePath: string, hash: string,
                                 size: Decimal.Int64): string
  {
    ServiceMessageLine.Format(DeltaVerificationMessage(
      Logger.ConvertServiceMessageValue(codePage, remotePath), Logger.ConvertServiceMessageValue(codePage, hash),
      Logger.ConvertServiceMessageValue(codePage, Decimal.Format(size))))
  }

  lemma DeltaVerificationMessageWellFormed(remotePath: string, hash: string, size: string)
    requires '"' !in remotePath && '"' !in hash && '"' !in size
    ensures ServiceMessageLine.WellFormed(DeltaVerificationMessage(remotePath, hash, size))
    ensures DeltaVerificationMessage(remotePath, hash, size).name[..7] != "stdout-"
  {
    var attributes := DeltaVerificationMessage(remotePath, hash, size).attributes;
    assert ' ' !in "deltaVerification" && "deltaVerification"[..7][0] == 'd';
    assert '=' !in "remotePath" && '=' !in "hash" && '=' !in "size";
    forall k | 0 <= k < |attributes|
      ensures '=' !in attributes[k].key && '"' !in attributes[k].value
    {
      if k == 0 { assert attributes[k] == ServiceMessageLine.Attribute("remotePath", remotePath); }
      else if k == 1 { assert attributes[k] == ServiceMessageLine.Attribute("hash", hash); }
      else { assert attributes[k] == ServiceMessageLine.Attribute("size", size); }
    }
  }

  lemma DeltaVerificationMessageFields(remotePath: string, hash: string, size: string,
                                       fields: seq<(string, seq<Base64.byte>)>)
    requires |fields| == 3
    requires fields[0].0 == "remotePath" && remotePath == Base64.Encode(fields[0].1)
    requires fields[1].0 == "hash" && hash == Base64.Encode(fields[1].1)
    requires fields[2].0 == "size" && size == Base64.Encode(fields[2].1)
    ensures var attributes := DeltaVerificationMessage(remotePath, hash, size).attributes;
      && |attributes| == |fields|
      && forall k | 0 <= k < |fields| ::
           attributes[k].key == fields[k].0 && attributes[k].value == Base64.Encode(fields[k].1)
  {
    var attributes := DeltaVerificationMessage(remotePath, hash, size).attributes;
    forall k | 0 <= k < |fields|
      ensures attributes[k].key == fields[k].0 && attributes[k].value == Base64.Encode(fields[k].1)
    {
      if k == 0 { assert attributes[k] == ServiceMessageLine.Attribute("remotePath", remotePath); }
      else if k == 1 { assert attributes[k] == ServiceMessageLine.Attribute("hash", hash); }
      else { assert attributes[k] == ServiceMessageLine.Attribute("size", size); }
    }
  }

  lemma DeltaVerificationMessageCarries(remotePath: string, hash: string, size: string,
                                        remotePathBytes: seq<Base64.byte>, hashBytes: seq<Base64.byte>,
                                        sizeBytes: seq<Base64.byte>)
    requires '"' !in remotePath && '"' !in hash && '"' !in size
    requires remotePath == Base64.Encode(remotePathBytes) && hash == Base64.Encode(hashBytes)
    requires size == Base64.Encode(sizeBytes)
    ensures var line := ServiceMessageLine.Format(DeltaVerificationMessage(remotePath, hash, size));
      && Logger.Carries(line, "deltaVerification",
           [("remotePath", remotePathBytes), ("hash", hashBytes), ("size", sizeBytes)])
      && !Logger.IsModeMarker(line)
  {
    var m := DeltaVerificationMessage(remotePath, hash, size);
    var fields := [("remotePath", remotePathBytes), ("hash", hashBytes), ("size", sizeBytes)];
    DeltaVerificationMessageWellFormed(remotePath, hash, size);
    DeltaVerificationMessageFields(remotePath, hash, size, fields);
    Logger.FormatCarries(m, fields);
    Logger.NotModeMarker(m);
  }

  /**
    The delta verification line carries, in this order, the remote path, the
    hash and the decimal rendering of the size, each encoded.
   */
  lemma DeltaVerificationLineCarries(codePage: string -> seq<Base64.byte>, remotePath: string, hash: string,
                                     size: Decimal.Int64)
    ensures Logger.Carries(DeltaVerificationLine(codePage, remotePath, hash, size), "deltaVerification",
      [("remotePath", codePage(remotePath)), ("hash", codePage(hash)), ("size", codePage(Decimal.Format(size)))])
    ensures !Logger.IsModeMarker(DeltaVerificationLine(codePage, remotePath, hash, size))
  {
    DeltaVerificationMessageCarries(
      Logger.ConvertServiceMessageValue(codePage, remotePath), Logger.ConvertServiceMessageValue(codePage, hash),
      Logger.ConvertServiceMessageValue(codePage, Decimal.Format(size)),
      codePage(remotePath), codePage(hash), codePage(Decimal.Format(size)));
  }

  /** Reports what is needed to verify a delta package: its remote path, its hash and its size. */
  function DeltaVerification(st: Logger.State, codePage: string -> seq<Base64.byte>, remotePath: string,
                             hash: string, size: Decimal.Int64): (r: Logger.State)
    ensures r.mode == Some(Logger.VerboseMode)
    ensures r.stderr == st.stderr
    ensures r.stdout == st.stdout + Logger.MarkerIfChanged(st, Logger.VerboseMode)
                        + [DeltaVerificationLine(codePage, remotePath, hash, size)]
  {
    Logger.Verbose(st, DeltaVerificationLine(codePage, remotePath, hash, size))
  }
}
