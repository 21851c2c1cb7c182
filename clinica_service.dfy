/** `ClinicaService`: the clinica table's service, step by step over the Prisma client. */
module ClinicaImpl {
  import opened Common
  import opened Records
  import opened Store
  import ClinicaSpec

  class ClinicaService {
    const prismaService: PrismaService

    constructor (prismaService: PrismaService)
      ensures this.prismaService == prismaService
    {
      this.prismaService := prismaService;
    }

    method FindById(id: Id) returns (r: Result<Clinica, Error>)
      requires prismaService.Valid()
      ensures r == ClinicaSpec.FindById(prismaService.State(), id)
    {
      var clinic := prismaService.FindClinica(ClinicaById(id));
      if clinic.Failure? {
        return Failure(StoreError(clinic.error));
      }
      if clinic.value.None? {
        return Failure(BadRequest(ClinicaSpec.ClinicNotFound));
      }
      return Success(clinic.value.value);
    }

    method Find(key: ClinicaKey) returns (r: Result<Clinica, Error>)
      requires prismaService.Valid()
      ensures r == ClinicaSpec.Find(prismaService.State(), key)
    {
      var clinic := prismaService.FindClinica(key);
      if clinic.Failure? {
        return Failure(StoreError(clinic.error));
      }
      if clinic.value.None? {
        return Failure(BadRequest(ClinicaSpec.ClinicaNotFoundPlain));
      }
      return Success(clinic.value.value);
    }

    method UpdateClinic(id: Id, properties: ClinicaPatch) returns (r: Result<Clinica, Error>)
      requires prismaService.Valid()
      modifies prismaService
      ensures prismaService.Valid()
      ensures (r, prismaService.State()) == ClinicaSpec.UpdateClinic(old(prismaService.State()), id, properties)
    {
      if Truthy(properties.cnpj) {
        var hasCnpj := prismaService.FindClinica(ClinicaByCnpj(properties.cnpj.value));
        if hasCnpj.Failure? {
          return Failure(InternalServerError);
        }
        if hasCnpj.value.Some? {
          return Failure(BadRequest(ClinicaSpec.CnpjInUse));
        }
      }
      var updatedClinic := prismaService.UpdateClinica(id, properties);
      if updatedClinic.Failure? {
        return Failure(ClinicaSpec.UpdateClinicError(updatedClinic.error));
      }
      return Success(updatedClinic.value);
    }

    method UpdateMany(where: Clinica -> bool, data: ClinicaPatch) returns (r: Result<nat, Error>)
      requires prismaService.Valid()
      modifies prismaService
      ensures prismaService.Valid()
      ensures (r, prismaService.State()) == ClinicaSpec.UpdateMany(old(prismaService.State()), where, data)
    {
      var updated := prismaService.UpdateManyClinica(where, data);
      if updated.Failure? {
        return Failure(ClinicaSpec.UpdateManyError(updated.error));
      }
      return Success(updated.value);
    }
  }
}
