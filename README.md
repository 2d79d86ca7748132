# SecureShare vault, modelled in Dafny

SecureShare stores files encrypted at rest and shares them between users. Each
user has an RSA key pair; the private key is sealed under a server master key
with AES-GCM. Each upload gets a fresh AES-256 key. The file is encrypted with
AES-GCM, its key is wrapped with the owner's RSA public key, and the filename,
description and category are signed with the owner's private key. Sharing
unwraps the key with the sender's private key and wraps it again for the
recipient. The recipient gets a new row, the copy, which keeps the lineage id
(`originalFileId`) of the shared row. A ledger entry records the share.
Deleting a lineage root can remove the root for its owner only ("me"), the
root together with every copy recorded in the ledger ("everyone"), or the
copies of chosen recipients ("list"). Deleting an account runs this deletion
over every row the user owns.

The project has these modules:

| module | what it holds |
|---|---|
| `Wrappers` | `Option` and `Result`, and the exception kinds, named after the Java exceptions |
| `Bytes` | unsigned bytes and the UTF-8 encoding of `String.getBytes()` |
| `Base64` | `java.util.Base64`'s basic encoder and decoder, with the round trip proved |
| `Primitives` | stand-ins for the JCA: AES-GCM, RSA-OAEP, signatures, X.509 and PKCS#8 |
| `KeyService` | key handling: IV and key generation, the sealing of private keys, key-byte conversions |
| `Entities` | users, file rows, ledger entries, the `Tables` value, and the repository look-ups |
| `SharedFileRepository` | the ledger queries and deletes |
| `Vault` | the file service as functions from tables to an outcome (result and new tables) |
| `VaultProperties` | the properties of `Vault`: round trips, the lineage invariant, the sharing and deletion rules |
| `Database` | the database as a class: one field per table and one method per repository call |
| `SharedFileService` | `logFileShare` (a function and a method on the database) and the three listing queries |
| `FileService` | the file service as methods on the database, each proved equal to its `Vault` function |
| `KeyDownloadService` | the PEM download of the user's keys (`chunkString` as a loop) |
| `OtpService` | the one-time-password table as a class, issuing and single-use verification |
| `UserService` | password reset and account deletion |

Transactions are atomic. A method of `FileService` or `UserService` that fails
after it has written restores the tables it started from. `Vault` states the
same thing as `o.result.Failure? ==> o.tables == t`.

Behaviours of the code worth noting:

- A share marked sensitive does not ask for a one-time password. `shareFile`
  only records `String.valueOf(isSensitive)` in the ledger.
- Failures are the Java exceptions the code raises. A duplicate share is an
  IllegalArgumentException, not its own kind of error. Cryptographic failures
  leave the file service as a RuntimeException, through the catch blocks of
  upload, share and download.
- The ledger and the rows do not always match. Deleting a root "me" keeps its
  copies and their ledger entries, and those copies can then no longer be
  downloaded (`VaultProperties.MeDeletionOrphansCopies`). Re-sharing a copy
  records the copy's id in the ledger, while the new row names the root
  (`VaultProperties.ReshareFromCopy`).

## Model

| member | source | states |
|---|---|---|
| Wrappers.Require | src/main/java/org/example/secureshare/service/FileService.java:78-79 | `orElseThrow`: the value when present, otherwise that exception |
| Bytes.Utf8Char | src/main/java/org/example/secureshare/service/FileService.java:144 | one to four bytes per character; ASCII is one byte, equal to its code |
| Bytes.Utf8 | src/main/java/org/example/secureshare/service/FileService.java:144 | `getBytes()` gives at least one byte per character |
| Bytes.Utf8Append | src/main/java/org/example/secureshare/service/FileService.java:142-144 | encoding a concatenation is encoding each part, so the signed bytes are filename, description and category encoded one after another |
| Base64.Decode | src/main/java/org/example/secureshare/service/FileService.java:241 | decoding rejects a text only with IllegalArgumentException |
| Base64.DecodeEncode | src/main/java/org/example/secureshare/service/KeyService.java:43-47 | decoding an encoded byte sequence gives it back, so the Base64 columns lose nothing |
| Base64.EncodeAlphabet | src/main/java/org/example/secureshare/service/KeyDownloadService.java:52 | encoded text has length 4⌈n/3⌉ and holds only alphabet characters and `=`, so no line break |
| Primitives.GcmEncrypt | src/main/java/org/example/secureshare/service/KeyService.java:103-108 | succeeds exactly for a valid AES key, a tag length GCM accepts and a non-empty IV; output is the data length plus the tag length |
| Primitives.GcmDecrypt | src/main/java/org/example/secureshare/service/KeyService.java:110-115 | on success the parameters are valid and the output is the input less the tag |
| Primitives.GcmRoundTrip | src/main/java/org/example/secureshare/service/KeyService.java:103-115 | decrypting under the same key, tag length and IV gives back the plaintext |
| Primitives.GcmDecryptAuthentic | src/main/java/org/example/secureshare/service/KeyService.java:110-115 | a ciphertext that opens is exactly the encryption of what it opens to (tampering is caught) |
| Primitives.PublicKeyOf | src/main/java/org/example/secureshare/service/KeyService.java:63-67 | the public half shares the private key's modulus |
| Primitives.RsaEncrypt | src/main/java/org/example/secureshare/service/KeyService.java:77-81 | a wrapped block is one modulus longer than its data |
| Primitives.RsaDecrypt | src/main/java/org/example/secureshare/service/KeyService.java:83-87 | unwrapping fails only with a cryptographic error |
| Primitives.RsaRoundTrip | src/main/java/org/example/secureshare/service/KeyService.java:77-87 | unwrapping with the matching private key gives back the data |
| Primitives.RsaOnlyOwner | src/main/java/org/example/secureshare/service/KeyService.java:83-87 | a block opens under a private key if and only if it was wrapped for that key's public half |
| Primitives.Sign | src/main/java/org/example/secureshare/service/FileService.java:144 | a signature is one modulus longer than the message |
| Primitives.VerifySign | src/main/java/org/example/secureshare/service/FileService.java:305-312 | a signature verifies if and only if the message is the one signed and the public key is the signer's |
| Primitives.EncodeX509 | src/main/java/org/example/secureshare/service/KeyService.java:69 | an encoded public key is one modulus long |
| Primitives.DecodeX509 | src/main/java/org/example/secureshare/service/KeyService.java:71-76 | a decoded key encodes back to the same bytes; malformed bytes are a cryptographic error |
| Primitives.EncodePkcs8 | src/main/java/org/example/secureshare/service/KeyService.java:70 | an encoded private key is at least one modulus long |
| Primitives.DecodePkcs8 | src/main/java/org/example/secureshare/service/KeyService.java:57-59 | a decoded key encodes back to the same bytes; malformed bytes are a cryptographic error |
| Primitives.X509RoundTrip | src/main/java/org/example/secureshare/service/KeyService.java:69-76 | decoding an encoded public key gives it back |
| Primitives.Pkcs8RoundTrip | src/main/java/org/example/secureshare/service/KeyService.java:57-59 | decoding an encoded private key gives it back |
| KeyService.RandomBytes | src/main/java/org/example/secureshare/service/KeyService.java:117-120 | n bytes, the i-th being the i-th value of the random stream |
| KeyService.NextBytes | src/main/java/org/example/secureshare/service/KeyService.java:119 | `nextBytes` fills the whole buffer from the random stream |
| KeyService.ArrayCopy | src/main/java/org/example/secureshare/service/KeyService.java:41-42 | `arraycopy` writes the source range at the destination offset and leaves the rest of the buffer as it was |
| KeyService.GenerateIv | src/main/java/org/example/secureshare/service/KeyService.java:117-121 | always exactly 12 bytes, drawn from the random stream |
| KeyService.GenerateAesKey | src/main/java/org/example/secureshare/service/KeyService.java:89-93 | a valid 256-bit AES key drawn from the random stream |
| KeyService.AesKeyBytes | src/main/java/org/example/secureshare/service/KeyService.java:95-97 | the key's encoded bytes |
| KeyService.AesKeyFromBytes | src/main/java/org/example/secureshare/service/KeyService.java:99-101 | succeeds exactly for non-empty bytes, with those bytes; otherwise IllegalArgumentException |
| KeyService.AesKeyBytesRoundTrip | src/main/java/org/example/secureshare/service/KeyService.java:95-101 | rebuilding a key from its bytes gives the same key |
| KeyService.EncryptWithAesGcm | src/main/java/org/example/secureshare/service/KeyService.java:103-108 | uses a 128-bit tag: succeeds exactly for a valid key and non-empty IV, output 16 bytes longer than the data |
| KeyService.DecryptWithAesGcm | src/main/java/org/example/secureshare/service/KeyService.java:110-115 | on success the key is valid and the plaintext is 16 bytes shorter than the input |
| KeyService.AesGcmRoundTrip | src/main/java/org/example/secureshare/service/KeyService.java:103-115 | decryptWithAesGcm inverts encryptWithAesGcm |
| KeyService.EncryptWithRsa | src/main/java/org/example/secureshare/service/KeyService.java:77-81 | the wrapped key is one modulus longer than the data |
| KeyService.DecryptWithRsa | src/main/java/org/example/secureshare/service/KeyService.java:83-87 | fails only with a cryptographic error |
| KeyService.RsaWrapRoundTrip | src/main/java/org/example/secureshare/service/KeyService.java:77-87 | decryptWithRsa with the private key inverts encryptWithRsa with its public half |
| KeyService.DecodePublicKey | src/main/java/org/example/secureshare/service/KeyService.java:71-76 | a missing column is a cryptographic error; a decoded key is the X.509 decoding of the Base64 text |
| KeyService.PublicKeyTextRoundTrip | src/main/java/org/example/secureshare/service/KeyService.java:69-76 | decodePublicKey inverts encodePublicKey |
| KeyService.SealedPrivateKey | src/main/java/org/example/secureshare/service/KeyService.java:31-44 | sealing succeeds exactly for a valid master key and a non-empty IV |
| KeyService.UnsealedPrivateKey | src/main/java/org/example/secureshare/service/KeyService.java:46-60 | a missing column is a cryptographic error |
| KeyService.SealUnseal | src/main/java/org/example/secureshare/service/KeyService.java:31-60 | decryptPrivateKey takes the 12-byte IV back off and inverts encryptPrivateKey |
| KeyService.UnsealShortBlob | src/main/java/org/example/secureshare/service/KeyService.java:48-51 | a blob shorter than the IV fails, whatever the master key |
| KeyService.UnsealAuthentic | src/main/java/org/example/secureshare/service/KeyService.java:46-60 | a blob that opens is the 12-byte IV followed by the GCM sealing of the key's PKCS#8 bytes under the master key; a wrong key or tampering fails |
| KeyService.EncryptPrivateKey | src/main/java/org/example/secureshare/service/KeyService.java:31-44 | the method (IV buffer, `nextBytes`, two `arraycopy` calls) returns the Base64 text of IV followed by the GCM output |
| KeyService.DecryptPrivateKey | src/main/java/org/example/secureshare/service/KeyService.java:46-60 | the method (two split buffers and `arraycopy`) returns the unsealed key or its failure |
| KeyService.GenerateRsaKeyPair | src/main/java/org/example/secureshare/service/KeyService.java:63-67 | a 2048-bit key drawn from the random stream |
| KeyDownloadService.ChunkedEmpty | src/main/java/org/example/secureshare/service/KeyDownloadService.java:65-71 | an empty key gives an empty body |
| KeyDownloadService.LinesShape | src/main/java/org/example/secureshare/service/KeyDownloadService.java:67-69 | ⌈n/64⌉ lines of 1 to 64 characters, all but the last exactly 64, which concatenate back to the input |
| KeyDownloadService.ChunkedUnchunk | src/main/java/org/example/secureshare/service/KeyDownloadService.java:67-70 | removing the line breaks from the chunked text gives back a text that had none |
| KeyDownloadService.ChunkString | src/main/java/org/example/secureshare/service/KeyDownloadService.java:65-71 | the loop with step 64 builds exactly the chunked text: each line followed by a line break |
| KeyDownloadService.DownloadPublicKey | src/main/java/org/example/secureshare/service/KeyDownloadService.java:25-42 | unknown requester, IllegalStateException without a key, otherwise the UTF-8 bytes of the PUBLIC KEY armor around the chunked column |
| KeyDownloadService.DownloadPrivateKey | src/main/java/org/example/secureshare/service/KeyDownloadService.java:44-62 | unknown requester, IllegalStateException without a key, the unsealing failure, otherwise the same PUBLIC KEY labels around the re-encoded unsealed key |
| KeyDownloadService.PrivateKeyDownloadBody | src/main/java/org/example/secureshare/service/KeyDownloadService.java:51-56 | for a sealed key the private download carries the key itself, and unchunking its body gives back its Base64 encoding |
| OtpService.FormatCodeShape | src/main/java/org/example/secureshare/service/OtpService.java:40 | `%06d` gives six decimal digits whose value is the number |
| OtpService.FormatCodeInjective | src/main/java/org/example/secureshare/service/OtpService.java:40 | different draws give different codes |
| OtpService.IssuedOtp | src/main/java/org/example/secureshare/service/OtpService.java:40-43 | the code is six digits of the draw modulo 999999 and expires two minutes after issue |
| OtpService.VerifyOutcome | src/main/java/org/example/secureshare/service/OtpService.java:76-94 | a successful verification returns true |
| OtpService.CommittedAfterVerify | src/main/java/org/example/secureshare/service/OtpService.java:75-94 | a success removes the email's code; a failure rolls the table back |
| OtpService.OtpRepository.Save | src/main/java/org/example/secureshare/service/OtpService.java:44 | stores the code under its email, replacing an earlier one |
| OtpService.OtpRepository.Delete | src/main/java/org/example/secureshare/service/OtpService.java:84 | removes the email's code |
| OtpService.OtpRepository.FindById | src/main/java/org/example/secureshare/service/OtpService.java:77 | the code stored under the email, if any |
| OtpService.GenerateAndSendOtp | src/main/java/org/example/secureshare/service/OtpService.java:38-73 | stores the issued code under the email; a failed delivery is a RuntimeException and the save is rolled back |
| OtpService.VerifyOtp | src/main/java/org/example/secureshare/service/OtpService.java:76-94 | the statements of verifyOtp: result and table as the specification functions give them |
| OtpService.VerifyOtpTransactional | src/main/java/org/example/secureshare/service/OtpService.java:75-94 | through the transaction, the table after a failure is the table before it |
| OtpService.VerifyMissing | src/main/java/org/example/secureshare/service/OtpService.java:77-81 | no stored code: NoSuchElementException and the table unchanged |
| OtpService.VerifyExpired | src/main/java/org/example/secureshare/service/OtpService.java:83-86 | an expired code is deleted, then IllegalArgumentException, and the rollback puts it back |
| OtpService.VerifyWrongCode | src/main/java/org/example/secureshare/service/OtpService.java:88-90 | a wrong code: IllegalArgumentException, and the code stays stored |
| OtpService.VerifySingleUse | src/main/java/org/example/secureshare/service/OtpService.java:88-93 | a matching code returns true and is removed, so a second verification is NoSuchElementException |
| OtpService.VerifyNeverFalse | src/main/java/org/example/secureshare/service/OtpService.java:76-94 | verifyOtp never returns false |
| OtpService.IssueThenVerify | src/main/java/org/example/secureshare/service/OtpService.java:39-44 | a code just issued verifies until it expires and not after |
| SharedFileRepository.FindSharedFilesByFileId | src/main/java/org/example/secureshare/repository/SharedFileRepository.java:14-15 | exactly the entries whose originalFileId is the id |
| SharedFileRepository.FindSharedFilesByFileIdAndRecipientId | src/main/java/org/example/secureshare/repository/SharedFileRepository.java:17-18 | exactly the entries of that id whose recipient is in the list |
| SharedFileRepository.RecipientSelectionIsSubset | src/main/java/org/example/secureshare/repository/SharedFileRepository.java:14-18 | the recipient selection is part of the selection by id |
| SharedFileRepository.DeleteByNewFileId | src/main/java/org/example/secureshare/repository/SharedFileRepository.java:20-22 | removes exactly the entries whose copy is the id |
| SharedFileRepository.DeleteByNewFileIdAbsent | src/main/java/org/example/secureshare/repository/SharedFileRepository.java:20-22 | with no such entry the ledger is unchanged |
| SharedFileRepository.DeleteAll | src/main/java/org/example/secureshare/service/FileService.java:393 | removes exactly the listed entries |
| SharedFileRepository.NewFileIds | src/main/java/org/example/secureshare/service/FileService.java:414-416 | the copies the entries name, one per entry, in order |
| Entities.FindUserByUsername | src/main/java/org/example/secureshare/service/UserService.java:110-111 | a user with that name, or none exists |
| Entities.FindUserById | src/main/java/org/example/secureshare/service/FileService.java:86-87 | a user with that id, or none exists |
| Entities.FindUserByEmail | src/main/java/org/example/secureshare/service/UserService.java:60-61 | a user with that email, or none exists |
| Entities.FindUserByUsernameUnique | src/main/java/org/example/secureshare/model/User.java:14-16 | under the unique constraints the look-up by name finds that user |
| Entities.FindUserByIdUnique | src/main/java/org/example/secureshare/model/User.java:20-22 | under the unique key the look-up by id finds that user |
| Entities.LoggedInUser | src/main/java/org/example/secureshare/util/AuthUtil.java:17-22 | the requester's record, or UsernameNotFoundException exactly when there is none |
| Entities.FindFileById | src/main/java/org/example/secureshare/service/FileService.java:78-79 | the row stored under the id, if any |
| Entities.FindRootOwnerId | src/main/java/org/example/secureshare/service/FileService.java:207 | the owner of the lineage root, present exactly when the lineage id names a root row |
| Entities.OwnedIdsBelow | src/main/java/org/example/secureshare/repository/FileRepository.java:14-15 | exactly the ids of the owner's rows, in ascending order |
| Entities.IdSet | src/main/java/org/example/secureshare/service/FileService.java:394 | the ids a list names, as a set |
| Database.WithoutUser | src/main/java/org/example/secureshare/service/UserService.java:128 | exactly the users with another id |
| Database.ReplaceUser | src/main/java/org/example/secureshare/service/UserService.java:76 | the record with the user's id replaced, every other record kept in place |
| Database.WithoutLogsOf | src/main/java/org/example/secureshare/service/UserService.java:125-126 | exactly the audit logs of other users |
| Database.Db.Restore | src/main/java/org/example/secureshare/service/FileService.java:120 | the rollback: every table back to the snapshot |
| Database.Db.SaveNewFile | src/main/java/org/example/secureshare/service/FileService.java:182 | the row is stored under the next id, which it gets as its own, and the counter moves on |
| Database.Db.SaveFile | src/main/java/org/example/secureshare/service/FileService.java:184-185 | the row replaces the one under its id |
| Database.Db.DeleteFileById | src/main/java/org/example/secureshare/service/FileService.java:386 | the row is gone, nothing else changes |
| Database.Db.DeleteAllById | src/main/java/org/example/secureshare/service/FileService.java:394 | one delete per id: exactly the listed rows are gone |
| Database.Db.SaveSharedFile | src/main/java/org/example/secureshare/service/SharedFileService.java:59 | the entry is appended with the next ledger id |
| Database.Db.DeleteSharedFiles | src/main/java/org/example/secureshare/service/FileService.java:393 | the listed entries are gone |
| Database.Db.DeleteSharedFilesByNewFileId | src/main/java/org/example/secureshare/service/FileService.java:429 | the entries naming the copy are gone |
| Database.Db.DeleteAuditLogsOf | src/main/java/org/example/secureshare/service/UserService.java:125-126 | the user's audit logs are gone |
| Database.Db.DeleteUser | src/main/java/org/example/secureshare/service/UserService.java:128 | the user's record is gone |
| Database.Db.SaveUser | src/main/java/org/example/secureshare/service/UserService.java:76 | the user's record is replaced |
| SharedFileService.LoggedShare | src/main/java/org/example/secureshare/service/SharedFileService.java:44-60 | unknown requester or missing copy fails with nothing saved; otherwise exactly one entry is appended, with the copy, the shared id, the sender, the recipient, the flag, and filename and category taken from the copy |
| SharedFileService.LogFileShare | src/main/java/org/example/secureshare/service/SharedFileService.java:44-60 | the method on the database does what LoggedShare says, and writes nothing on failure |
| SharedFileService.Select | src/main/java/org/example/secureshare/service/SharedFileService.java:95 | exactly the ledger entries meeting the filter |
| SharedFileService.BooleanValueOf | src/main/java/org/example/secureshare/service/SharedFileService.java:113 | `Boolean.valueOf`: true if and only if the text is four letters that fold to "true"; so "true", "TRUE" and "True" are true, "false" and "null" false |
| SharedFileService.Responses | src/main/java/org/example/secureshare/service/SharedFileService.java:99-119 | one row per entry with sender and recipient names, or NoSuchElementException exactly when one of them no longer exists |
| SharedFileService.SelectSharedByMe | src/main/java/org/example/secureshare/service/SharedFileService.java:65-92 | exactly the entries sent by the user, with the optional flag and keyword filters (username match on the recipient) |
| SharedFileService.SelectSharedToMe | src/main/java/org/example/secureshare/service/SharedFileService.java:134-160 | exactly the entries addressed to the user, with the same filters (username match on the sender) |
| SharedFileService.GetFilesSharedByMe | src/main/java/org/example/secureshare/service/SharedFileService.java:63-127 | UsernameNotFoundException without a requester; on success the responses of exactly the selected entries |
| SharedFileService.GetFilesSharedToMe | src/main/java/org/example/secureshare/service/SharedFileService.java:130-194 | the same for the entries addressed to the requester |
| SharedFileService.RecipientNames | src/main/java/org/example/secureshare/service/SharedFileService.java:242-246 | one name per entry, "Unknown" for a recipient that no longer exists |
| SharedFileService.SelectSharedFrom | src/main/java/org/example/secureshare/service/SharedFileService.java:219-236 | exactly the entries made from the file, with the optional recipient keyword |
| SharedFileService.GetUsersFileIsSharedWith | src/main/java/org/example/secureshare/service/SharedFileService.java:202-255 | missing file NoSuchElementException; a non-original file IllegalArgumentException before the ownership check; a non-owner SecurityException; otherwise the recipient names of the entries made from it |
| Vault.CatchUpload | src/main/java/org/example/secureshare/service/FileService.java:188-192 | NoSuchElementException and IllegalArgumentException pass unchanged; every other failure, and only those, becomes a RuntimeException |
| Vault.CatchAll | src/main/java/org/example/secureshare/service/FileService.java:232-236 | NoSuchElementException, SecurityException and IllegalArgumentException pass unchanged; every other failure, and only those, becomes a RuntimeException |
| Vault.SplitCiphertextAndTag | src/main/java/org/example/secureshare/service/FileService.java:155-157 | the two parts put together are the GCM output; the tag is its last 16 bytes |
| Vault.CombineSplit | src/main/java/org/example/secureshare/service/FileService.java:240-246 | recombining the stored ciphertext with the Base64-stored tag rebuilds the GCM output exactly |
| Vault.UploadRow | src/main/java/org/example/secureshare/service/FileService.java:142-180 | the row belongs to the uploader and carries the filename, description, category, content type and upload time |
| Vault.UploadRowColumns | src/main/java/org/example/secureshare/service/FileService.java:144-173 | the IV column decodes to the 12 drawn IV bytes, the tag column to 16 bytes, and the signature column is the Base64 of the owner's signature over filename + description + category |
| Vault.StoreSingleFile | src/main/java/org/example/secureshare/service/FileService.java:134-193 | unknown requester RuntimeException, empty file IllegalArgumentException, failure writes nothing; success adds one row under the next id, owned by the uploader, which is its own lineage root |
| Vault.StoreFrom | src/main/java/org/example/secureshare/service/FileService.java:126-131 | the loop of storeFiles from file i on: consecutive new ids |
| Vault.StoreFiles | src/main/java/org/example/secureshare/service/FileService.java:120-132 | no file is IllegalArgumentException; a failure stores nothing; success returns one consecutive new id per file, in input order |
| Vault.StoreSingleFileRow | src/main/java/org/example/secureshare/service/FileService.java:134-187 | a successful storeSingleFile saves, under the next id, exactly the row UploadRow builds from that file, as its own lineage root |
| Vault.StoreFromRows | src/main/java/org/example/secureshare/service/FileService.java:126-131 | a successful loop from file i on stores file j under the (j - i)-th new id, built from file j and its own key and IV streams |
| Vault.StoreFilesInOrder | src/main/java/org/example/secureshare/service/FileService.java:120-132 | the j-th id storeFiles returns holds the row built from the j-th file with the j-th key and IV streams |
| Vault.GetFileLobDataForSharing | src/main/java/org/example/secureshare/service/FileService.java:75-117 | missing row NoSuchElementException, non-owner SecurityException, missing owner NoSuchElementException; otherwise the row's columns and the owner's public key |
| Vault.IsSensitiveText | src/main/java/org/example/secureshare/service/FileService.java:349 | `String.valueOf` of the flag: "true", "false" or "null", "true" exactly for true |
| Vault.ShareCopy | src/main/java/org/example/secureshare/service/FileService.java:314-337 | the copy equals the shared row except for the owner (the recipient), the lineage id (the shared row's) and the re-wrapped key |
| Vault.ShareFile | src/main/java/org/example/secureshare/service/FileService.java:285-365 | the error order (unknown requester, missing row, non-owner, unknown recipient, duplicate, bad signature, crypto) with nothing written; success adds exactly one row and one ledger entry |
| Vault.ResolveRecipients | src/main/java/org/example/secureshare/service/FileService.java:402-407 | succeeds exactly when every name resolves, with their ids in order; otherwise NoSuchElementException |
| Vault.DeleteEveryone | src/main/java/org/example/secureshare/service/FileService.java:388-395 | removes the entries of the root, the copies they name and the root, and nothing else |
| Vault.DeleteListed | src/main/java/org/example/secureshare/service/FileService.java:414-419 | removes exactly the chosen entries and the copies they name |
| Vault.DeleteCopy | src/main/java/org/example/secureshare/service/FileService.java:428-429 | removes the copy's row and the entries that name it |
| Vault.DeleteListSteps | src/main/java/org/example/secureshare/service/FileService.java:397-420 | no names IllegalArgumentException; an unknown name or no matching entry NoSuchElementException; otherwise the listed deletion |
| Vault.DeleteFile | src/main/java/org/example/secureshare/service/FileService.java:373-431 | missing row, non-owner, and each deletion type for a root and for a copy, with the exact tables after it; a failure deletes nothing |
| Vault.CheckSignature | src/main/java/org/example/secureshare/service/FileService.java:206-215 | a copy without a root fails with a RuntimeException; success needs a root owner |
| Vault.DownloadFileAndGetMetadata | src/main/java/org/example/secureshare/service/FileService.java:195-237 | missing row and non-owner fail first; success means the signature verifies under the root owner's key, and returns the row's filename and content type |
| Vault.UnwrappedKey | src/main/java/org/example/secureshare/service/FileService.java:444-446 | the row's AES key opens if and only if the owner's private key unseals, the key column decodes and the RSA unwrap succeeds, and it is that unwrap's result |
| Vault.DownloadEncryptedFileAndSendKeys | src/main/java/org/example/secureshare/service/FileService.java:433-465 | missing row and non-owner fail first; a key mail that is not delivered fails the call, as a RuntimeException once the key unwraps; success returns the stored ciphertext named filename + ".enc" and mails the owner the Base64 of the unwrapped key, the IV and the tag |
| VaultProperties.RegisteredKeyPair | src/main/java/org/example/secureshare/service/KeyService.java:31-76 | a user whose columns hold a sealed key and its encoded public half holds that key pair |
| VaultProperties.UploadRowOpens | src/main/java/org/example/secureshare/service/FileService.java:142-180 | for an owner holding a key pair the upload row is built, its envelope opens to the uploaded bytes, and its signature is the owner's over the metadata |
| VaultProperties.OpenEnvelopeColumns | src/main/java/org/example/secureshare/service/FileService.java:217-224 | opening a row reads only its envelope columns |
| VaultProperties.UploadThenDownload | src/main/java/org/example/secureshare/service/FileService.java:134-237 | an upload by a user holding a key pair succeeds, and downloading the new id returns the uploaded bytes, filename and content type |
| VaultProperties.LineageEmpty | src/main/java/org/example/secureshare/service/FileService.java:182-185 | the empty vault satisfies the lineage invariant |
| VaultProperties.LineageUploaded | src/main/java/org/example/secureshare/service/FileService.java:182-185 | uploads keep the lineage invariant |
| VaultProperties.LineageStoreSingleFile | src/main/java/org/example/secureshare/service/FileService.java:134-193 | storeSingleFile keeps the lineage invariant |
| VaultProperties.LineageStoreFiles | src/main/java/org/example/secureshare/service/FileService.java:120-132 | storeFiles keeps the lineage invariant |
| VaultProperties.LineageShrunk | src/main/java/org/example/secureshare/service/FileService.java:383-430 | removing rows and entries keeps the lineage invariant |
| VaultProperties.DeleteFileShrinks | src/main/java/org/example/secureshare/service/FileService.java:373-431 | every branch of deleteFile only removes rows and entries |
| VaultProperties.LineageDeleteFile | src/main/java/org/example/secureshare/service/FileService.java:373-431 | deleteFile keeps the lineage invariant |
| VaultProperties.ShareStepsGuards | src/main/java/org/example/secureshare/service/FileService.java:288-312 | a share that gets through passed every guard: requester, row, recipient, duplicate, signature |
| VaultProperties.ShareStepsParts | src/main/java/org/example/secureshare/service/FileService.java:325-350 | once the guards pass, the copy is stored under the next id and the users are unchanged |
| VaultProperties.ShareParts | src/main/java/org/example/secureshare/service/FileService.java:325-350 | the same facts, from a successful shareFile |
| VaultProperties.ShareCopyOpens | src/main/java/org/example/secureshare/service/FileService.java:314-337 | the recipient's key opens the copy to what the sender's key opens the shared row to |
| VaultProperties.LineageShareFile | src/main/java/org/example/secureshare/service/FileService.java:336 | shareFile keeps the lineage invariant: the copy names the shared row's lineage id and is not a root |
| VaultProperties.ShareThenDownload | src/main/java/org/example/secureshare/service/FileService.java:285-365 | after a share, the recipient's download of the copy equals the sender's download of the shared row |
| VaultProperties.DownloadOwnRoot | src/main/java/org/example/secureshare/service/FileService.java:195-226 | a root row the requester owns, signed with the requester's key and whose envelope opens, downloads to that plaintext under the row's filename and content type |
| VaultProperties.DownloadRejectsBadSignature | src/main/java/org/example/secureshare/service/FileService.java:206-215 | once the requester owns the row, a signature that decodes but does not verify under the lineage root owner's key is a SecurityException |
| VaultProperties.ShareRejectsBadSignature | src/main/java/org/example/secureshare/service/FileService.java:304-312 | a signature that decodes but does not verify under the sender's key is a SecurityException, and nothing is written |
| VaultProperties.ReshareFromCopy | src/main/java/org/example/secureshare/service/FileService.java:299-302 | the duplicate guard cannot fire for a copy, the ledger then names the copy, and a recipient can end up with two rows of one lineage |
| VaultProperties.OwnedRootTest | src/main/java/org/example/secureshare/service/UserService.java:117 | an owner's row passes deleteAccount's test exactly when it is a lineage root |
| VaultProperties.ListDeletionKeepsRoot | src/main/java/org/example/secureshare/service/FileService.java:397-420 | a "list" deletion keeps the root row |
| VaultProperties.MeDeletionOrphansCopies | src/main/java/org/example/secureshare/service/FileService.java:207-209 | after a "me" deletion of a root, a holder's download of a remaining copy is a RuntimeException |
| FileService.CombineCiphertextAndTag | src/main/java/org/example/secureshare/service/FileService.java:240-246 | the buffer filled by two `arraycopy` calls is the ciphertext followed by the decoded tag |
| FileService.StoreSingleFile | src/main/java/org/example/secureshare/service/FileService.java:134-193 | the save, id assignment and second save give exactly the result and tables of Vault.StoreSingleFile |
| FileService.StoreFiles | src/main/java/org/example/secureshare/service/FileService.java:120-132 | the loop gives exactly the result and tables of Vault.StoreFiles, rolled back on failure |
| FileService.ShareFile | src/main/java/org/example/secureshare/service/FileService.java:285-365 | the save of the copy and the logged share give exactly the result and tables of Vault.ShareFile |
| FileService.ResolveRecipients | src/main/java/org/example/secureshare/service/FileService.java:402-407 | the loop returns what Vault.ResolveRecipients gives |
| FileService.DeleteFile | src/main/java/org/example/secureshare/service/FileService.java:373-431 | the repository calls of each branch give exactly the result and tables of Vault.DeleteFile |
| FileService.DownloadFileAndGetMetadata | src/main/java/org/example/secureshare/service/FileService.java:195-237 | the steps, with the array recombination, return what Vault.DownloadFileAndGetMetadata gives |
| FileService.DownloadEncryptedFileAndSendKeys | src/main/java/org/example/secureshare/service/FileService.java:433-465 | the steps, with the mail server's answer as `delivered`, return what Vault.DownloadEncryptedFileAndSendKeys gives |
| UserService.AccountDeletion | src/main/java/org/example/secureshare/service/UserService.java:108-129 | an unknown username is NoSuchElementException with nothing deleted; any failure deletes nothing |
| UserService.DeleteStep | src/main/java/org/example/secureshare/service/UserService.java:116-122 | a successful deletion of one of the user's rows removes it, keeps the accounts, and for a root it owns removes every ledger entry of that root |
| UserService.DeleteEachRemoves | src/main/java/org/example/secureshare/service/UserService.java:115-123 | a successful loop only removes rows and entries, removes every snapshotted id, and leaves no entry of a root the user owned |
| UserService.AccountDeletionErases | src/main/java/org/example/secureshare/service/UserService.java:108-129 | after a successful deletion the user owns no row and has no audit log and no account, no entry of its roots is left, other users are kept, and the lineage invariant holds |
| UserService.AccountDeletionUnknownUser | src/main/java/org/example/secureshare/service/UserService.java:110-111 | an unknown username is NoSuchElementException and nothing is deleted |
| UserService.DeleteAccount | src/main/java/org/example/secureshare/service/UserService.java:108-129 | the loop over the snapshotted ids, then the two deletes, give exactly what AccountDeletion says, rolled back on failure |
| UserService.InitiatePasswordReset | src/main/java/org/example/secureshare/service/UserService.java:59-63 | an unknown email is NoSuchElementException and issues no code; otherwise the code is issued for the email |
| UserService.ResetPassword | src/main/java/org/example/secureshare/service/UserService.java:66-77 | the code is verified, and consumed, before the look-up; a verification failure or an unknown email changes no password; otherwise the user's record gets the encoded password |
| UserService.ResetChangesOnlyPassword | src/main/java/org/example/secureshare/service/UserService.java:74-76 | with unique users, only the record with that email changes, and only its password |

## Left out

- Cryptography is not the JCA. `Primitives` holds small concrete stand-ins: a keystream cipher with a checksum tag for AES-GCM, a modulus prefix for RSA-OAEP, and the modulus followed by the message for a signature. The proofs use only their round-trip, authenticity and length lemmas. Key strength, RSA-OAEP's limit on data size and the formats' inner structure are not modelled.
- The lengths of wrapped keys and signatures are the stand-ins' lengths. `Primitives.RsaEncrypt`, `KeyService.EncryptWithRsa` and `Primitives.Sign` state that the output is one modulus longer than the input. Real RSA-OAEP output and RSA signatures are exactly one modulus long, so no length fact of the model carries over to the JCA.
- Three repository queries that the file and user services call are not declared in FileRepository.java, which declares only `findByOwnerId`. They are modelled from their names:
  - `existbyOriginalFileIdAndOwnerId(originalFileId, ownerId)` (FileService.java:299, UserService.java:117) is `Entities.ExistsByOriginalFileIdAndOwnerId`: some row with that lineage id has that owner.
  - `existbyOriginalFileIdAndFileId(fileId)` (FileService.java:383) is `Entities.ExistsByOriginalFileIdAndFileId`: the row with that id is its own lineage root.
  - `findByIdAndOriginalFileId(originalFileId)` (FileService.java:207) is `Entities.FindRootOwnerId`: the owner of the root row with that id, or null when there is none.
  - The duplicate-share guard, the everyone/me branch of deleteFile, the deletion test of deleteAccount and the signer of the download signature check rest on these assumed meanings.
- `signData` and `verifySignature` are called by the file service, but KeyService.java does not define them. They are modelled as `Primitives.Sign` and `Primitives.Verify` over the UTF-8 metadata bytes.
- The master key (`getMasterKey`, read from configuration) is the parameter `master`. The random generators are streams `nat -> byte`, the `Random.nextInt` draw is the parameter `draw`, and `LocalDateTime.now()` is the integer `now`, in seconds.
- The signed-in user, which AuthUtil reads from the security context, is the parameter `requester`. For deleteAccount it is whoever is signed in, as in the code.
- Registration is not modelled. AuthController.java:92 stores `encodePrivateKey` of the new key, which is not sealed. decryptPrivateKey expects the sealed IV-and-ciphertext blob, so for such a user every operation that unseals the key fails. The properties assume the sealed form (`VaultProperties.RegisteredKeyPair`).
- Mail is not sent. The OTP mail is the `delivered` flag of `OtpService.GenerateAndSendOtp`. The key mail of the encrypted download is returned as a value (`Vault.KeyMail`), and the `delivered` flag of `Vault.DownloadEncryptedFileAndSendKeys` says whether the mail server accepted it. `findUsernameByEmail` only sends mail and is not modelled.
- Pagination, sorting, page metadata and `getAllFilesForUser` are not modelled. The listing queries return all matching entries in ledger order. SQL `LIKE` over lower-cased text is the parameter `like`.
- `findByOwnerId` returns the owner's rows in ascending id order. The query has no ORDER BY, so this order is assumed.
- The File entity in model/File.java lacks the columns FileService sets. The row type follows the setters FileService calls.
- An IOException from `MultipartFile.getBytes()`, which is checked and so does not roll back, is not modelled. Null arguments are not modelled either, except a null `deletionType` (NullPointerException on a root) and a null recipient list. A null `MultipartFile[]` is treated as an empty one.
- Concurrency is not modelled. Each transaction runs alone. Timestamps stored on rows and entries are `now`.
- The audit-log service, the controllers, DataInitializer and the Group entity are not modelled. getUserSettings is not modelled.
- UserService.AccountDeletion: no lemma states when deleteAccount succeeds. A deletion can fail part-way, for example on a row the signed-in user does not own, and is then rolled back. The properties are stated for a successful run.
- OtpService.VerifyOutcome: its own contract says only that a success is `true`. The error cases are the lemmas VerifyMissing, VerifyExpired and VerifyWrongCode.
